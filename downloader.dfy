/**
  One download run (`download_all`, `download_page` or `download_url`) with its
  counters, the failure lists it reports and the image folder it writes to.

  What the run cannot compute itself is an input of the run (`Env`):
  - the stop flag, raised by another thread: every read of it is a numbered
    poll, and from poll `stopAt` on it reads as raised (never, when None);
  - the HTTP fetch of attempt k of an image URL;
  - what attempt k of loading an artwork page shows;
  and, given to the run methods, what each listing page shows.
  The image folder is a map from file name to file size.
*/
module Downloader {
  import opened Wrappers
  import opened Text
  import ImageUrls
  import opened Listing

  /** At most this many fetches per image. */
  const MaxFetchAttempts: nat := 5

  /** At most this many loads of an artwork page. */
  const PageLoadAttempts: nat := 3

  /** At most this many searches for the next-page control. */
  const NextSearchAttempts: nat := 3

  datatype Fetch = Fetched(size: nat) | FetchFailed(error: string)

  /** What one load of an artwork page gives. */
  datatype PageLoad =
    | Loaded(preview: Option<string>, ogImage: Option<string>, original: Option<ImageUrls.OriginalMatch>)
    | LoadFailed   // the load or the wait for an image timed out, or another driver error
    | WindowClosed // the browser window or session is gone

  datatype Env = Env(
    stopAt: Option<nat>,
    fetch: (string, nat) -> Fetch,
    artworkPage: (string, nat) -> PageLoad)

  /** What one listing page shows during `download_all` / `download_page`. */
  datatype ListingPage = ListingPage(
    loaded: bool,                    // the page and its artwork links loaded in time
    navShown: bool,                  // the pagination bar appeared in time
    hrefs: seq<string>,              // the hrefs of its anchors, in document order
    returned: bool,                  // going back to the page after its artworks worked
    nextAttempts: seq<NextLookup>)   // what each search for the next-page control sees

  datatype FailReason = SessionInterrupted | ExtractionFailed

  /** An entry of `failed_urls`. */
  datatype FailedArtwork = FailedArtwork(url: string, page: nat, reason: FailReason)

  /** An entry of `failed_downloads`. */
  datatype FailedDownload = FailedDownload(imageUrl: string, artworkUrl: string, page: nat, error: string)

  /** The stop flag as read by poll number `poll`. */
  predicate StopSeen(stopAt: Option<nat>, poll: nat)
  {
    stopAt.Some? && stopAt.value <= poll
  }

  /** The file an image is saved as: the last '/'-segment of its URL. */
  function FileName(imageUrl: string): (name: string)
    ensures '/' !in name
  {
    LastSegmentAvoids(imageUrl, '/');
    LastSegment(imageUrl, '/')
  }

  /** A file that is there and not empty. */
  predicate Present(files: map<string, nat>, name: string)
  {
    name in files && files[name] > 0
  }

  function Repeat(url: string, n: nat): (r: seq<string>)
    ensures |r| == n && forall i :: 0 <= i < n ==> r[i] == url
  {
    seq(n, _ => url)
  }

  lemma RepeatOneMore(url: string, n: nat)
    ensures Repeat(url, n) + [url] == Repeat(url, n + 1)
  {
  }

  // ---------------------------------------------------------------------------
  // fetching one image

  /** How the fetches of one image end. */
  datatype RetryOutcome =
    | Saved(size: nat, attempts: nat) // the `attempts`-th fetch worked and the file was written
    | GaveUp(error: string)           // all fetches failed; `error` is the last one's
    | Cancelled(attempts: nat)        // the stop flag was seen before fetch `attempts + 1`
  {
    function Fetches(): nat
    {
      match this
      case Saved(_, n) => n
      case GaveUp(_) => MaxFetchAttempts
      case Cancelled(n) => n
    }

    function Polls(): nat
    {
      match this
      case Saved(_, n) => n
      case GaveUp(_) => MaxFetchAttempts
      case Cancelled(n) => n + 1
    }
  }

  /** The fetch loop from `attempt` on; each attempt first polls the stop flag. */
  function Retry(fetch: (string, nat) -> Fetch, url: string, stopAt: Option<nat>, firstPoll: nat, attempt: nat): RetryOutcome
    requires attempt < MaxFetchAttempts
    decreases MaxFetchAttempts - attempt
  {
    if StopSeen(stopAt, firstPoll + attempt) then Cancelled(attempt)
    else match fetch(url, attempt)
      case Fetched(size) => Saved(size, attempt + 1)
      case FetchFailed(e) =>
        if attempt == MaxFetchAttempts - 1 then GaveUp(e)
        else Retry(fetch, url, stopAt, firstPoll, attempt + 1)
  }

  /**
    The fetch loop stops at the first success, gives up only after every
    attempt failed, and stops when the flag is raised.
  */
  lemma {:induction false} RetryFacts(fetch: (string, nat) -> Fetch, url: string, stopAt: Option<nat>, firstPoll: nat, attempt: nat)
    requires attempt < MaxFetchAttempts
    ensures var o := Retry(fetch, url, stopAt, firstPoll, attempt);
      && attempt <= o.Fetches() <= MaxFetchAttempts
      && (o.Fetches() > attempt ==> !StopSeen(stopAt, firstPoll + o.Fetches() - 1))
      && (forall j :: attempt <= j < o.Fetches() - 1 ==> fetch(url, j).FetchFailed?)
      && (o.Saved? ==> o.attempts > attempt && fetch(url, o.attempts - 1) == Fetched(o.size))
      && (o.GaveUp? ==> forall j :: attempt <= j < MaxFetchAttempts ==> fetch(url, j).FetchFailed?)
      && (o.GaveUp? ==> o.error == fetch(url, MaxFetchAttempts - 1).error)
      && (o.Cancelled? ==> StopSeen(stopAt, firstPoll + o.attempts)
                           && forall j :: attempt <= j < o.attempts ==> fetch(url, j).FetchFailed?)
    ensures !StopSeen(stopAt, firstPoll + MaxFetchAttempts - 1)
            && (forall j :: attempt <= j < MaxFetchAttempts ==> fetch(url, j).FetchFailed?)
            ==> Retry(fetch, url, stopAt, firstPoll, attempt).GaveUp?
    decreases MaxFetchAttempts - attempt
  {
    if !StopSeen(stopAt, firstPoll + attempt) && fetch(url, attempt).FetchFailed? && attempt < MaxFetchAttempts - 1 {
      RetryFacts(fetch, url, stopAt, firstPoll, attempt + 1);
    }
  }

  /** The parts of the run one image changes. */
  datatype ImageState = ImageState(
    files: map<string, nat>,
    fetchLog: seq<string>,
    failedDownloads: seq<FailedDownload>,
    polls: nat)

  function AfterRetry(st: ImageState, fileName: string, imageUrl: string, artworkUrl: string, page: nat, o: RetryOutcome): ImageState
  {
    ImageState(
      if o.Saved? then st.files[fileName := o.size] else st.files,
      st.fetchLog + Repeat(imageUrl, o.Fetches()),
      st.failedDownloads + (if o.GaveUp? then [FailedDownload(imageUrl, artworkUrl, page, o.error)] else []),
      st.polls + o.Polls())
  }

  datatype ImageStep = StopBefore | Skipped | Attempted(outcome: RetryOutcome)

  datatype Stepped = Stepped(step: ImageStep, after: ImageState)

  /** One turn of the image loop: poll, skip a file already there, or fetch. */
  function StepImage(env: Env, st: ImageState, imageUrl: string, artworkUrl: string, page: nat): Stepped
  {
    var polled := st.(polls := st.polls + 1);
    if StopSeen(env.stopAt, st.polls) then Stepped(StopBefore, polled)
    else if Present(st.files, FileName(imageUrl)) then Stepped(Skipped, polled)
    else
      var o := Retry(env.fetch, imageUrl, env.stopAt, polled.polls, 0);
      Stepped(Attempted(o), AfterRetry(polled, FileName(imageUrl), imageUrl, artworkUrl, page, o))
  }

  datatype ImagesDone = ImagesDone(after: ImageState, allSkipped: bool)

  /** `now` is `before` with failed downloads of `page` appended, and nothing else changed. */
  predicate AddedForPage(before: seq<FailedDownload>, now: seq<FailedDownload>, page: nat)
  {
    && |before| <= |now| && now[..|before|] == before
    && forall i :: |before| <= i < |now| ==> now[i].page == page
  }

  /** As `AddedForPage`, every appended failure also naming `artworkUrl`. */
  predicate AddedForArtwork(before: seq<FailedDownload>, now: seq<FailedDownload>, artworkUrl: string, page: nat)
  {
    && AddedForPage(before, now, page)
    && forall i :: |before| <= i < |now| ==> now[i].artworkUrl == artworkUrl
  }

  lemma AddedForPageTrans(a: seq<FailedDownload>, b: seq<FailedDownload>, c: seq<FailedDownload>, page: nat)
    requires AddedForPage(a, b, page) && AddedForPage(b, c, page)
    ensures AddedForPage(a, c, page)
  {
    assert c[..|b|][..|a|] == c[..|a|];
  }

  /** The image loop of one artwork over `imageUrls`, with `allSkipped` as it stands so far. */
  function ImagesLoop(env: Env, st: ImageState, imageUrls: seq<string>, artworkUrl: string, page: nat, allSkipped: bool): ImagesDone
    decreases |imageUrls|
  {
    if imageUrls == [] then ImagesDone(st, allSkipped)
    else
      var s := StepImage(env, st, imageUrls[0], artworkUrl, page);
      match s.step
      case StopBefore => ImagesDone(s.after, allSkipped)
      case Skipped => ImagesLoop(env, s.after, imageUrls[1..], artworkUrl, page, allSkipped)
      case Attempted(_) => ImagesLoop(env, s.after, imageUrls[1..], artworkUrl, page, false)
  }

  /** An image whose file is there and not empty is skipped without a fetch. */
  lemma SkipWhenPresent(env: Env, st: ImageState, imageUrl: string, artworkUrl: string, page: nat)
    requires !StopSeen(env.stopAt, st.polls) && Present(st.files, FileName(imageUrl))
    ensures StepImage(env, st, imageUrl, artworkUrl, page) == Stepped(Skipped, st.(polls := st.polls + 1))
  {
  }

  /** `now` extends the fetch log `before` by at most `bound` fetches, each of one of `urls`. */
  predicate LogGrowth(before: seq<string>, now: seq<string>, urls: seq<string>, bound: nat)
  {
    && |before| <= |now| <= |before| + bound
    && now[..|before|] == before
    && forall i :: |before| <= i < |now| ==> now[i] in urls
  }

  /** `now` extends `before` by at most `bound` failed downloads of `urls`, for this artwork and page. */
  predicate FailGrowth(before: seq<FailedDownload>, now: seq<FailedDownload>, urls: seq<string>,
                       artworkUrl: string, page: nat, bound: nat)
  {
    && |before| <= |now| <= |before| + bound
    && now[..|before|] == before
    && forall i :: |before| <= i < |now| ==>
         now[i].imageUrl in urls && now[i].artworkUrl == artworkUrl && now[i].page == page
  }

  lemma LogGrowthChain(a: seq<string>, b: seq<string>, c: seq<string>, urls: seq<string>, m: nat, n: nat)
    requires |urls| > 0
    requires LogGrowth(a, b, urls[..1], m) && LogGrowth(b, c, urls[1..], n)
    ensures LogGrowth(a, c, urls, m + n)
  {
    assert c[..|b|][..|a|] == c[..|a|];
    forall i | |a| <= i < |c| ensures c[i] in urls {
      if i < |b| {
        assert c[i] == b[i] && b[i] in urls[..1];
      } else {
        assert c[i] in urls[1..];
      }
    }
  }

  lemma FailGrowthChain(a: seq<FailedDownload>, b: seq<FailedDownload>, c: seq<FailedDownload>,
                        urls: seq<string>, artworkUrl: string, page: nat, m: nat, n: nat)
    requires |urls| > 0
    requires FailGrowth(a, b, urls[..1], artworkUrl, page, m) && FailGrowth(b, c, urls[1..], artworkUrl, page, n)
    ensures FailGrowth(a, c, urls, artworkUrl, page, m + n)
  {
    assert c[..|b|][..|a|] == c[..|a|];
    forall i | |a| <= i < |c| ensures c[i].imageUrl in urls {
      if i < |b| {
        assert c[i] == b[i] && b[i].imageUrl in urls[..1];
      } else {
        assert c[i].imageUrl in urls[1..];
      }
    }
  }

  /** One turn fetches its image at most five times and records at most one failure for it. */
  lemma StepImageBounds(env: Env, st: ImageState, urls: seq<string>, artworkUrl: string, page: nat)
    requires |urls| > 0
    ensures var d := StepImage(env, st, urls[0], artworkUrl, page).after;
      && LogGrowth(st.fetchLog, d.fetchLog, urls[..1], MaxFetchAttempts)
      && FailGrowth(st.failedDownloads, d.failedDownloads, urls[..1], artworkUrl, page, 1)
  {
    var s := StepImage(env, st, urls[0], artworkUrl, page);
    assert urls[0] in urls[..1];
    if s.step.Attempted? {
      RetryFacts(env.fetch, urls[0], env.stopAt, st.polls + 1, 0);
    }
  }

  /**
    The image loop fetches only its own images, at most five times each, and
    records at most one failed download per image, for this artwork and page.
  */
  lemma {:induction false} ImagesLoopBounds(env: Env, st: ImageState, imageUrls: seq<string>, artworkUrl: string, page: nat, allSkipped: bool)
    ensures var d := ImagesLoop(env, st, imageUrls, artworkUrl, page, allSkipped).after;
      && LogGrowth(st.fetchLog, d.fetchLog, imageUrls, MaxFetchAttempts * |imageUrls|)
      && FailGrowth(st.failedDownloads, d.failedDownloads, imageUrls, artworkUrl, page, |imageUrls|)
    decreases |imageUrls|
  {
    if imageUrls != [] {
      var s := StepImage(env, st, imageUrls[0], artworkUrl, page);
      StepImageBounds(env, st, imageUrls, artworkUrl, page);
      if !s.step.StopBefore? {
        var rest := imageUrls[1..];
        var flag := if s.step.Skipped? then allSkipped else false;
        ImagesLoopBounds(env, s.after, rest, artworkUrl, page, flag);
        var d := ImagesLoop(env, s.after, rest, artworkUrl, page, flag).after;
        assert d == ImagesLoop(env, st, imageUrls, artworkUrl, page, allSkipped).after;
        LogGrowthChain(st.fetchLog, s.after.fetchLog, d.fetchLog, imageUrls, MaxFetchAttempts, MaxFetchAttempts * |rest|);
        FailGrowthChain(st.failedDownloads, s.after.failedDownloads, d.failedDownloads, imageUrls, artworkUrl, page, 1, |rest|);
      } else {
        assert s.after == ImagesLoop(env, st, imageUrls, artworkUrl, page, allSkipped).after;
      }
    }
  }

  /** Once an image was fetched, the artwork no longer counts as all skipped. */
  lemma {:induction false} NotSkippedStays(env: Env, st: ImageState, imageUrls: seq<string>, artworkUrl: string, page: nat)
    ensures !ImagesLoop(env, st, imageUrls, artworkUrl, page, false).allSkipped
    decreases |imageUrls|
  {
    if imageUrls != [] {
      var s := StepImage(env, st, imageUrls[0], artworkUrl, page);
      NotSkippedStays(env, s.after, imageUrls[1..], artworkUrl, page);
    }
  }

  /** The image loop changes a file only under the name of one of its images. */
  lemma {:induction false} OtherFilesKept(env: Env, st: ImageState, imageUrls: seq<string>, artworkUrl: string, page: nat, allSkipped: bool, name: string)
    requires forall i :: 0 <= i < |imageUrls| ==> FileName(imageUrls[i]) != name
    ensures var d := ImagesLoop(env, st, imageUrls, artworkUrl, page, allSkipped).after;
      (name in d.files <==> name in st.files) && (name in st.files ==> d.files[name] == st.files[name])
    decreases |imageUrls|
  {
    if imageUrls != [] {
      var s := StepImage(env, st, imageUrls[0], artworkUrl, page);
      OtherFilesKept(env, s.after, imageUrls[1..], artworkUrl, page, if s.step.Skipped? then allSkipped else false, name);
    }
  }

  /**
    While the flag stays down, an artwork counts as downloaded as soon as one of
    its files is missing when its turn comes, even if every fetch of it fails.
  */
  lemma {:induction false} MissingFileCountsAsDownload(env: Env, st: ImageState, imageUrls: seq<string>, artworkUrl: string, page: nat, allSkipped: bool, k: nat)
    requires env.stopAt.None?
    requires k < |imageUrls| && !Present(st.files, FileName(imageUrls[k]))
    requires forall j :: 0 <= j < k ==> FileName(imageUrls[j]) != FileName(imageUrls[k])
    ensures !ImagesLoop(env, st, imageUrls, artworkUrl, page, allSkipped).allSkipped
    decreases k
  {
    var s := StepImage(env, st, imageUrls[0], artworkUrl, page);
    if k == 0 {
      NotSkippedStays(env, s.after, imageUrls[1..], artworkUrl, page);
    } else {
      var name := FileName(imageUrls[k]);
      assert imageUrls[1..][k - 1] == imageUrls[k];
      OtherFilesKept(env, st, imageUrls[..1], artworkUrl, page, allSkipped, name);
      assert ImagesLoop(env, st, imageUrls[..1], artworkUrl, page, allSkipped).after == s.after by {
        assert imageUrls[..1][1..] == [];
      }
      MissingFileCountsAsDownload(env, s.after, imageUrls[1..], artworkUrl, page, if s.step.Skipped? then allSkipped else false, k - 1);
    }
  }

  /** Fetches that write something: every successful fetch returns a non-empty body. */
  ghost predicate NonEmptyBodies(fetch: (string, nat) -> Fetch)
  {
    forall url, k :: fetch(url, k).Fetched? ==> fetch(url, k).size > 0
  }

  /**
    A file that is there stays there, unchanged, whatever the fetches return:
    its image is skipped and never written.
  */
  lemma {:induction false} PresentStays(env: Env, st: ImageState, imageUrls: seq<string>, artworkUrl: string, page: nat, allSkipped: bool, name: string)
    requires Present(st.files, name)
    ensures var d := ImagesLoop(env, st, imageUrls, artworkUrl, page, allSkipped).after;
      name in d.files && d.files[name] == st.files[name]
    decreases |imageUrls|
  {
    if imageUrls != [] {
      var s := StepImage(env, st, imageUrls[0], artworkUrl, page);
      PresentStays(env, s.after, imageUrls[1..], artworkUrl, page, if s.step.Skipped? then allSkipped else false, name);
    }
  }

  /** When the whole loop records no failed download, neither does its first turn. */
  lemma FirstTurnNoFailure(env: Env, st: ImageState, imageUrls: seq<string>, artworkUrl: string, page: nat, allSkipped: bool)
    requires imageUrls != []
    requires ImagesLoop(env, st, imageUrls, artworkUrl, page, allSkipped).after.failedDownloads == st.failedDownloads
    ensures StepImage(env, st, imageUrls[0], artworkUrl, page).after.failedDownloads == st.failedDownloads
  {
    var s := StepImage(env, st, imageUrls[0], artworkUrl, page);
    StepImageBounds(env, st, imageUrls, artworkUrl, page);
    if !s.step.StopBefore? {
      var flag := if s.step.Skipped? then allSkipped else false;
      ImagesLoopBounds(env, s.after, imageUrls[1..], artworkUrl, page, flag);
      assert ImagesLoop(env, st, imageUrls, artworkUrl, page, allSkipped).after
          == ImagesLoop(env, s.after, imageUrls[1..], artworkUrl, page, flag).after;
    }
    assert s.after.failedDownloads[..|st.failedDownloads|] == st.failedDownloads;
  }

  /** Without a stop, a turn that records no failure leaves its image's file there. */
  lemma TurnLeavesFile(env: Env, st: ImageState, imageUrl: string, artworkUrl: string, page: nat)
    requires env.stopAt.None? && NonEmptyBodies(env.fetch)
    requires StepImage(env, st, imageUrl, artworkUrl, page).after.failedDownloads == st.failedDownloads
    ensures Present(StepImage(env, st, imageUrl, artworkUrl, page).after.files, FileName(imageUrl))
  {
    var s := StepImage(env, st, imageUrl, artworkUrl, page);
    if s.step.Attempted? {
      RetryFacts(env.fetch, imageUrl, env.stopAt, st.polls + 1, 0);
      assert !s.step.outcome.GaveUp? by {
        assert |s.after.failedDownloads| == |st.failedDownloads|;
      }
    }
  }

  /**
    Without a stop, and when no download of the artwork failed, every image file
    of the artwork is there afterwards.
  */
  lemma {:induction false} AllFilesPresent(env: Env, st: ImageState, imageUrls: seq<string>, artworkUrl: string, page: nat, allSkipped: bool)
    requires env.stopAt.None? && NonEmptyBodies(env.fetch)
    requires ImagesLoop(env, st, imageUrls, artworkUrl, page, allSkipped).after.failedDownloads == st.failedDownloads
    ensures forall i :: 0 <= i < |imageUrls| ==>
      Present(ImagesLoop(env, st, imageUrls, artworkUrl, page, allSkipped).after.files, FileName(imageUrls[i]))
    decreases |imageUrls|
  {
    if imageUrls != [] {
      var s := StepImage(env, st, imageUrls[0], artworkUrl, page);
      var rest := imageUrls[1..];
      var flag := if s.step.Skipped? then allSkipped else false;
      var d := ImagesLoop(env, s.after, rest, artworkUrl, page, flag).after;
      assert !s.step.StopBefore?;
      assert d == ImagesLoop(env, st, imageUrls, artworkUrl, page, allSkipped).after;
      FirstTurnNoFailure(env, st, imageUrls, artworkUrl, page, allSkipped);
      TurnLeavesFile(env, st, imageUrls[0], artworkUrl, page);
      AllFilesPresent(env, s.after, rest, artworkUrl, page, flag);
      PresentStays(env, s.after, rest, artworkUrl, page, flag, FileName(imageUrls[0]));
      forall i | 1 <= i < |imageUrls|
        ensures Present(d.files, FileName(imageUrls[i]))
      {
        assert imageUrls[i] == rest[i - 1];
      }
    }
  }

  /** With every file there and no stop, the image loop only polls: nothing is fetched or written. */
  lemma {:induction false} AllPresentOnlyPolls(env: Env, st: ImageState, imageUrls: seq<string>, artworkUrl: string, page: nat, allSkipped: bool)
    requires env.stopAt.None?
    requires forall i :: 0 <= i < |imageUrls| ==> Present(st.files, FileName(imageUrls[i]))
    ensures ImagesLoop(env, st, imageUrls, artworkUrl, page, allSkipped)
         == ImagesDone(st.(polls := st.polls + |imageUrls|), allSkipped)
    decreases |imageUrls|
  {
    if imageUrls != [] {
      var polled := st.(polls := st.polls + 1);
      assert StepImage(env, st, imageUrls[0], artworkUrl, page) == Stepped(Skipped, polled);
      assert forall i :: 0 <= i < |imageUrls| - 1 ==> imageUrls[1..][i] == imageUrls[i + 1];
      AllPresentOnlyPolls(env, polled, imageUrls[1..], artworkUrl, page, allSkipped);
    }
  }

  /**
    Downloading an artwork again after a run that was not stopped and lost no
    image skips every image and fetches nothing.
  */
  lemma SecondRunSkipsAll(env: Env, env2: Env, st: ImageState, imageUrls: seq<string>, artworkUrl: string, page: nat)
    requires env.stopAt.None? && env2.stopAt.None? && NonEmptyBodies(env.fetch)
    requires ImagesLoop(env, st, imageUrls, artworkUrl, page, true).after.failedDownloads == st.failedDownloads
    ensures var first := ImagesLoop(env, st, imageUrls, artworkUrl, page, true).after;
      ImagesLoop(env2, first, imageUrls, artworkUrl, page, true)
        == ImagesDone(first.(polls := first.polls + |imageUrls|), true)
  {
    AllFilesPresent(env, st, imageUrls, artworkUrl, page, true);
    AllPresentOnlyPolls(env2, ImagesLoop(env, st, imageUrls, artworkUrl, page, true).after, imageUrls, artworkUrl, page, true);
  }

  // ---------------------------------------------------------------------------
  // extracting the image URLs of an artwork

  /** How the load loop of `get_image_urls` ends. */
  datatype LoadEnd =
    | StoppedAt(attempt: nat) // the stop flag was seen before load `attempt`
    | ClosedAt(attempt: nat)  // load `attempt` found the window gone
    | LoadedAt(attempt: nat)  // load `attempt` showed the page
    | LoadsFailed             // every load failed

  /** The load loop from `attempt` on; each attempt first polls the stop flag. */
  function LoadLoop(env: Env, artworkUrl: string, firstPoll: nat, attempt: nat): (r: LoadEnd)
    requires attempt < PageLoadAttempts
    ensures !r.LoadsFailed? ==> attempt <= r.attempt < PageLoadAttempts
    decreases PageLoadAttempts - attempt
  {
    if StopSeen(env.stopAt, firstPoll + attempt) then StoppedAt(attempt)
    else match env.artworkPage(artworkUrl, attempt)
      case WindowClosed => ClosedAt(attempt)
      case Loaded(_, _, _) => LoadedAt(attempt)
      case LoadFailed =>
        if attempt == PageLoadAttempts - 1 then LoadsFailed
        else LoadLoop(env, artworkUrl, firstPoll, attempt + 1)
  }

  /**
    A load ends the loop only after the flag stayed down for it, and the loop
    gives up only when every load failed.
  */
  lemma {:induction false} LoadLoopFacts(env: Env, artworkUrl: string, firstPoll: nat, attempt: nat)
    requires attempt < PageLoadAttempts
    ensures var r := LoadLoop(env, artworkUrl, firstPoll, attempt);
      && (r.StoppedAt? ==> StopSeen(env.stopAt, firstPoll + r.attempt))
      && (r.ClosedAt? ==> !StopSeen(env.stopAt, firstPoll + r.attempt) && env.artworkPage(artworkUrl, r.attempt).WindowClosed?)
      && (r.LoadedAt? ==> !StopSeen(env.stopAt, firstPoll + r.attempt) && env.artworkPage(artworkUrl, r.attempt).Loaded?)
      && (!r.LoadsFailed? ==> forall j :: attempt <= j < r.attempt ==> env.artworkPage(artworkUrl, j).LoadFailed?)
      && (r.LoadsFailed? <==>
            !StopSeen(env.stopAt, firstPoll + PageLoadAttempts - 1)
            && forall j :: attempt <= j < PageLoadAttempts ==> env.artworkPage(artworkUrl, j).LoadFailed?)
    decreases PageLoadAttempts - attempt
  {
    if !StopSeen(env.stopAt, firstPoll + attempt) && env.artworkPage(artworkUrl, attempt).LoadFailed?
       && attempt < PageLoadAttempts - 1 {
      LoadLoopFacts(env, artworkUrl, firstPoll, attempt + 1);
    }
  }

  datatype Extraction = Extraction(urls: seq<string>, sessionLost: bool, polls: nat)

  /** What a loaded artwork page gives: its image URLs, or none; `int()` raising drops the session. */
  function FromLoadedPage(artworkUrl: string, load: PageLoad, polls: nat): (x: Extraction)
    requires load.Loaded?
    ensures x.sessionLost ==> x.urls == []
    ensures x.polls == polls
  {
    match ImageUrls.DeriveImageUrls(artworkUrl, load.preview, load.ogImage, load.original)
    case Success(urls) => Extraction(urls, false, polls)
    case Failure(e) => Extraction([], e == ImageUrls.MalformedPageCount, polls)
  }

  /** `get_image_urls`: the image URLs of an artwork, whether the session was lost, and the polls made. */
  function Extract(env: Env, artworkUrl: string, firstPoll: nat): (x: Extraction)
    ensures 0 < x.polls <= PageLoadAttempts
    ensures x.sessionLost ==> x.urls == []
  {
    match LoadLoop(env, artworkUrl, firstPoll, 0)
    case StoppedAt(k) => Extraction([], true, k + 1)
    case ClosedAt(k) => Extraction([], true, k + 1)
    case LoadsFailed => Extraction([], false, PageLoadAttempts)
    case LoadedAt(k) => FromLoadedPage(artworkUrl, env.artworkPage(artworkUrl, k), k + 1)
  }

  // ---------------------------------------------------------------------------
  // the next-page control in `download_all`

  /** What search `k` sees; beyond the given searches, no candidate. */
  function AttemptView(attempts: seq<NextLookup>, k: nat): NextLookup
  {
    if k < |attempts| then attempts[k] else NextLookup(true, [], false)
  }

  /** One of the searches for the control after page `pageNum` finds it and moves on. */
  predicate NextFound(attempts: seq<NextLookup>, pageNum: nat)
  {
    exists j :: 0 <= j < NextSearchAttempts && FindsNext(AttemptView(attempts, j), pageNum)
  }

  datatype Search = Search(found: bool, polls: nat)

  /** The search loop from search `k` on; each search first polls the stop flag. */
  function NextSearch(stopAt: Option<nat>, firstPoll: nat, attempts: seq<NextLookup>, pageNum: nat, k: nat): Search
    requires k <= NextSearchAttempts
    decreases NextSearchAttempts - k
  {
    if k == NextSearchAttempts then Search(false, k)
    else if StopSeen(stopAt, firstPoll + k) then Search(false, k + 1)
    else if FindsNext(AttemptView(attempts, k), pageNum) then Search(true, k + 1)
    else NextSearch(stopAt, firstPoll, attempts, pageNum, k + 1)
  }

  /** The walk moves on only if one of three searches finds the control; without a stop, it moves on if any does. */
  lemma {:induction false} NextSearchFacts(stopAt: Option<nat>, firstPoll: nat, attempts: seq<NextLookup>, pageNum: nat, k: nat)
    requires k <= NextSearchAttempts
    ensures var s := NextSearch(stopAt, firstPoll, attempts, pageNum, k);
      && s.polls <= NextSearchAttempts
      && (s.found ==> exists j :: k <= j < NextSearchAttempts && FindsNext(AttemptView(attempts, j), pageNum)
                                 && !StopSeen(stopAt, firstPoll + j))
      && (stopAt.None? && (exists j :: k <= j < NextSearchAttempts && FindsNext(AttemptView(attempts, j), pageNum)) ==> s.found)
    decreases NextSearchAttempts - k
  {
    if k < NextSearchAttempts {
      NextSearchFacts(stopAt, firstPoll, attempts, pageNum, k + 1);
    }
  }

  // ---------------------------------------------------------------------------
  // the run

  /**
    The failed artworks `added` name each artwork of `failed` (no image URLs)
    and each of `stopped` (the run stopped first) exactly once, all on `page`.
  */
  predicate Entries(added: seq<FailedArtwork>, page: nat, failed: set<string>, stopped: set<string>)
    decreases |added|
  {
    if added == [] then failed == {} && stopped == {}
    else
      var e := added[|added| - 1];
      var rest := added[..|added| - 1];
      && e.page == page
      && if e.reason == ExtractionFailed then e.url in failed && Entries(rest, page, failed - {e.url}, stopped)
         else e.url in stopped && Entries(rest, page, failed, stopped - {e.url})
  }

  /** `now` is `before` followed by the entries of `failed` and `stopped` on `page`. */
  predicate Reported(before: seq<FailedArtwork>, now: seq<FailedArtwork>, page: nat, failed: set<string>, stopped: set<string>)
  {
    |before| <= |now| && now[..|before|] == before && Entries(now[|before|..], page, failed, stopped)
  }

  /** One more failed artwork, not yet reported, is reported under its own reason. */
  lemma EntriesAppend(added: seq<FailedArtwork>, page: nat, failed: set<string>, stopped: set<string>, e: FailedArtwork)
    requires Entries(added, page, failed, stopped)
    requires e.page == page && e.url !in failed && e.url !in stopped
    ensures e.reason == ExtractionFailed ==> Entries(added + [e], page, failed + {e.url}, stopped)
    ensures e.reason == SessionInterrupted ==> Entries(added + [e], page, failed, stopped + {e.url})
  {
    assert (added + [e])[..|added|] == added;
    assert failed + {e.url} - {e.url} == failed;
    assert stopped + {e.url} - {e.url} == stopped;
  }

  /** Reports made one after the other add up. */
  lemma {:induction false} EntriesConcat(x: seq<FailedArtwork>, y: seq<FailedArtwork>, page: nat,
                                         failed1: set<string>, stopped1: set<string>, failed2: set<string>, stopped2: set<string>)
    requires Entries(x, page, failed1, stopped1) && Entries(y, page, failed2, stopped2)
    requires failed1 !! failed2 && stopped1 !! stopped2
    ensures Entries(x + y, page, failed1 + failed2, stopped1 + stopped2)
    decreases |y|
  {
    if y == [] {
      assert x + y == x;
      assert failed1 + failed2 == failed1 && stopped1 + stopped2 == stopped1;
    } else {
      var e := y[|y| - 1];
      var y' := y[..|y| - 1];
      assert (x + y)[..|x + y| - 1] == x + y';
      if e.reason == ExtractionFailed {
        EntriesConcat(x, y', page, failed1, stopped1, failed2 - {e.url}, stopped2);
        assert failed1 + failed2 - {e.url} == failed1 + (failed2 - {e.url});
      } else {
        EntriesConcat(x, y', page, failed1, stopped1, failed2, stopped2 - {e.url});
        assert stopped1 + stopped2 - {e.url} == stopped1 + (stopped2 - {e.url});
      }
    }
  }

  /** There are as many entries as reported artworks. */
  lemma {:induction false} EntriesCount(added: seq<FailedArtwork>, page: nat, failed: set<string>, stopped: set<string>)
    requires Entries(added, page, failed, stopped)
    ensures |added| == |failed| + |stopped|
    decreases |added|
  {
    if added != [] {
      var e := added[|added| - 1];
      var rest := added[..|added| - 1];
      if e.reason == ExtractionFailed {
        EntriesCount(rest, page, failed - {e.url}, stopped);
        assert failed == failed - {e.url} + {e.url};
      } else {
        EntriesCount(rest, page, failed, stopped - {e.url});
        assert stopped == stopped - {e.url} + {e.url};
      }
    }
  }

  /** Each entry is on `page` and names an artwork reported under its reason. */
  lemma {:induction false} EntriesMembers(added: seq<FailedArtwork>, page: nat, failed: set<string>, stopped: set<string>)
    requires Entries(added, page, failed, stopped)
    ensures forall i :: 0 <= i < |added| ==>
      && added[i].page == page
      && (if added[i].reason == ExtractionFailed then added[i].url in failed else added[i].url in stopped)
    decreases |added|
  {
    if added != [] {
      var e := added[|added| - 1];
      var rest := added[..|added| - 1];
      if e.reason == ExtractionFailed {
        EntriesMembers(rest, page, failed - {e.url}, stopped);
      } else {
        EntriesMembers(rest, page, failed, stopped - {e.url});
      }
      forall i | 0 <= i < |added| - 1
        ensures added[i] == rest[i]
      {
      }
    }
  }

  /** Each reported artwork has an entry under its reason. */
  lemma {:induction false} EntriesComplete(added: seq<FailedArtwork>, page: nat, failed: set<string>, stopped: set<string>)
    requires Entries(added, page, failed, stopped)
    ensures forall u :: u in failed ==> FailedArtwork(u, page, ExtractionFailed) in added
    ensures forall u :: u in stopped ==> FailedArtwork(u, page, SessionInterrupted) in added
    decreases |added|
  {
    if added != [] {
      var e := added[|added| - 1];
      var rest := added[..|added| - 1];
      assert added == rest + [e];
      if e.reason == ExtractionFailed {
        EntriesComplete(rest, page, failed - {e.url}, stopped);
      } else {
        EntriesComplete(rest, page, failed, stopped - {e.url});
      }
    }
  }

  /** The interrupted artworks reported after the failed extractions of a page. */
  lemma ReportedConcat(a: seq<FailedArtwork>, b: seq<FailedArtwork>, c: seq<FailedArtwork>, page: nat,
                       failed: set<string>, stopped: set<string>)
    requires Reported(a, b, page, failed, {}) && Reported(b, c, page, {}, stopped)
    ensures Reported(a, c, page, failed, stopped)
  {
    assert c[..|b|][..|a|] == c[..|a|];
    assert c[|a|..] == b[|a|..] + c[|b|..] by {
      assert c[..|b|] == b;
    }
    EntriesConcat(b[|a|..], c[|b|..], page, failed, {}, {}, stopped);
    assert failed + {} == failed && {} + stopped == stopped;
  }

  /** Every failed artwork is recorded on one of the pages 1 to `last`. */
  predicate ArtworksWithin(failed: seq<FailedArtwork>, last: nat)
  {
    forall i :: 0 <= i < |failed| ==> 1 <= failed[i].page <= last
  }

  /** Every failed download is recorded on one of the pages 1 to `last`. */
  predicate DownloadsWithin(failed: seq<FailedDownload>, last: nat)
  {
    forall i :: 0 <= i < |failed| ==> 1 <= failed[i].page <= last
  }

  /** Records within the first `last` pages are within the first `last + 1`. */
  lemma WithinNext(artworks: seq<FailedArtwork>, downloads: seq<FailedDownload>, last: nat)
    requires ArtworksWithin(artworks, last) && DownloadsWithin(downloads, last)
    ensures ArtworksWithin(artworks, last + 1) && DownloadsWithin(downloads, last + 1)
  {
  }

  lemma ReportedWithin(before: seq<FailedArtwork>, now: seq<FailedArtwork>, page: nat, failed: set<string>, stopped: set<string>)
    requires Reported(before, now, page, failed, stopped) && ArtworksWithin(before, page) && 1 <= page
    ensures ArtworksWithin(now, page)
  {
    EntriesMembers(now[|before|..], page, failed, stopped);
    forall i | 0 <= i < |now|
      ensures 1 <= now[i].page <= page
    {
      if i < |before| {
        assert now[i] == now[..|before|][i];
      } else {
        assert now[i] == now[|before|..][i - |before|];
      }
    }
  }

  lemma AddedWithin(before: seq<FailedDownload>, now: seq<FailedDownload>, page: nat)
    requires AddedForPage(before, now, page) && DownloadsWithin(before, page) && 1 <= page
    ensures DownloadsWithin(now, page)
  {
    forall i | 0 <= i < |before|
      ensures now[i] == before[i]
    {
      assert now[i] == now[..|before|][i];
    }
  }

  /** Every element of `whole` is in exactly one of `rest`, `a` and `b`. */
  ghost predicate Partition(whole: set<string>, rest: set<string>, a: set<string>, b: set<string>)
  {
    && (forall u :: u in whole <==> u in rest || u in a || u in b)
    && (forall u :: u in rest ==> u !in a && u !in b)
    && (forall u :: u in a ==> u !in b)
  }

  lemma MoveToFirst(whole: set<string>, rest: set<string>, a: set<string>, b: set<string>, u: string)
    requires Partition(whole, rest, a, b) && u in rest
    ensures Partition(whole, rest - {u}, a + {u}, b)
  {
  }

  lemma MoveToSecond(whole: set<string>, rest: set<string>, a: set<string>, b: set<string>, u: string)
    requires Partition(whole, rest, a, b) && u in rest
    ensures Partition(whole, rest - {u}, a, b + {u})
  {
  }

  /** `now` holds exactly what `before` or `added` holds. */
  ghost predicate Grew(now: set<string>, before: set<string>, added: set<string>)
  {
    forall x :: x in now <==> x in before || x in added
  }

  lemma GrewSize(now: set<string>, before: set<string>, added: set<string>)
    requires Grew(now, before, added) && before !! added
    ensures |now| == |before| + |added|
  {
    assert now == before + added;
  }

  /** The artworks named by a list of failed artworks. */
  function Urls(failed: seq<FailedArtwork>): set<string>
  {
    set e | e in failed :: e.url
  }

  /** The entries of a report name exactly the artworks reported. */
  lemma EntriesUrls(added: seq<FailedArtwork>, page: nat, failed: set<string>, stopped: set<string>)
    requires Entries(added, page, failed, stopped)
    ensures Urls(added) == failed + stopped
  {
    EntriesMembers(added, page, failed, stopped);
    EntriesComplete(added, page, failed, stopped);
    forall u | u in Urls(added)
      ensures u in failed + stopped
    {
      var i :| 0 <= i < |added| && added[i].url == u;
    }
  }

  lemma ThreeWaySize(whole: set<string>, a: set<string>, b: set<string>, c: set<string>)
    requires forall u :: u in whole <==> u in a || u in b || u in c
    requires forall u :: u in a ==> u !in b && u !in c
    requires forall u :: u in b ==> u !in c
    ensures |whole| == |a| + |b| + |c|
  {
    assert whole == a + b + c;
    assert a !! b && (a + b) !! c;
  }

  /**
    A page whose new artworks `linked` ended completed, not extracted or
    interrupted, reported from an empty list: each is either processed or
    reported failed on that page, never both, and reported once.
  */
  lemma PageAccount(linked: set<string>, done: set<string>, failed: seq<FailedArtwork>, page: nat,
                    completed: set<string>, notExtracted: set<string>, interrupted: set<string>)
    requires forall u :: u in linked <==> u in completed || u in notExtracted || u in interrupted
    requires forall u :: u in completed ==> u !in notExtracted && u !in interrupted
    requires forall u :: u in notExtracted ==> u !in interrupted
    requires Grew(done, {}, completed)
    requires Reported([], failed, page, notExtracted, interrupted)
    ensures linked == done + Urls(failed) && done !! Urls(failed)
    ensures |done| + |failed| == |linked|
    ensures forall i :: 0 <= i < |failed| ==> failed[i].page == page && failed[i].url in linked
  {
    assert failed[0..] == failed;
    assert done == completed;
    EntriesMembers(failed, page, notExtracted, interrupted);
    EntriesUrls(failed, page, notExtracted, interrupted);
    EntriesCount(failed, page, notExtracted, interrupted);
    ThreeWaySize(linked, completed, notExtracted, interrupted);
  }

  /** The entry `download_url` records on page 1 for an artwork that ended with `r`. */
  function UrlFailure(artworkUrl: string, r: ArtworkResult): seq<FailedArtwork>
  {
    match r
    case NotExtracted => [FailedArtwork(artworkUrl, 1, ExtractionFailed)]
    case Interrupted => [FailedArtwork(artworkUrl, 1, SessionInterrupted)]
    case Done(_) => []
  }

  /** A listing page lets the walk move on: it loads, shows its bar, is returned to, and a search finds the control. */
  predicate WalksOn(view: ListingPage, pageNum: nat)
  {
    view.loaded && view.navShown && view.returned && NextFound(view.nextAttempts, pageNum)
  }

  /** The hrefs of each listing page, in page order. */
  function PageHrefs(listing: seq<ListingPage>): (r: seq<seq<string>>)
    ensures |r| == |listing| && forall i :: 0 <= i < |listing| ==> r[i] == listing[i].hrefs
  {
    seq(|listing|, i requires 0 <= i < |listing| => listing[i].hrefs)
  }

  /** The links seen after page k + 1 are those seen after page k and those of page k + 1. */
  lemma SeenAfterNext(listing: seq<ListingPage>, k: nat)
    requires k < |listing|
    ensures SeenAfter({}, PageHrefs(listing[..k + 1])) == SeenAfter({}, PageHrefs(listing[..k])) + LinkedArtworks(listing[k].hrefs)
  {
    var pages := PageHrefs(listing[..k + 1]);
    assert pages[..k] == PageHrefs(listing[..k]);
  }

  datatype ArtworkResult =
    | Done(allSkipped: bool) // counted as processed: skipped when every image was
    | NotExtracted           // no image URLs; recorded as failed
    | Interrupted            // the run is stopping

  /** What one artwork turn leaves: its result, the image state and the session flag. */
  datatype Turn = Turn(result: ArtworkResult, after: ImageState, sessionValid: bool)

  /** What every extraction satisfies: a lost session comes with no URL. */
  predicate Consistent(x: Extraction)
  {
    x.sessionLost ==> x.urls == []
  }

  /**
    Processing an artwork from `st` with session flag `sv`, `x` being what its
    extraction gives (`Extract` from `st.polls`): with no URL, it failed (or was
    interrupted, when the session went); else its images are downloaded and
    the flag is polled once more.
  */
  function ProcessSpec(env: Env, st: ImageState, sv: bool, x: Extraction, artworkUrl: string, page: nat): Turn
  {
    var sv' := sv && !x.sessionLost;
    var mid := st.(polls := st.polls + x.polls);
    if x.urls == [] then Turn(if sv' then NotExtracted else Interrupted, mid, sv')
    else
      var done := ImagesLoop(env, mid, x.urls, artworkUrl, page, true);
      Turn(if StopSeen(env.stopAt, done.after.polls) then Interrupted else Done(done.allSkipped),
           done.after.(polls := done.after.polls + 1), sv')
  }

  /** `ProcessSpec` for an extraction that found no image. */
  lemma ProcessSpecEmpty(env: Env, st: ImageState, sv: bool, x: Extraction, artworkUrl: string, page: nat)
    requires x.urls == []
    ensures var sv' := sv && !x.sessionLost;
      ProcessSpec(env, st, sv, x, artworkUrl, page)
      == Turn(if sv' then NotExtracted else Interrupted, st.(polls := st.polls + x.polls), sv')
  {
  }

  /** `ProcessSpec` for an extraction that found images. */
  lemma ProcessSpecImages(env: Env, st: ImageState, sv: bool, x: Extraction, artworkUrl: string, page: nat)
    requires x.urls != []
    ensures var done := ImagesLoop(env, st.(polls := st.polls + x.polls), x.urls, artworkUrl, page, true);
      ProcessSpec(env, st, sv, x, artworkUrl, page)
      == Turn(if StopSeen(env.stopAt, done.after.polls) then Interrupted else Done(done.allSkipped),
              done.after.(polls := done.after.polls + 1), sv && !x.sessionLost)
  {
  }

  /**
    One turn of the artwork loop, `x` being what the extraction of the artwork
    gives after the poll (`Extract` from `st.polls + 1`): a lost session or a
    raised flag interrupts it, else it is processed.
  */
  function TurnSpec(env: Env, st: ImageState, sv: bool, x: Extraction, artworkUrl: string, page: nat): Turn
  {
    if !sv then Turn(Interrupted, st, false)
    else if StopSeen(env.stopAt, st.polls) then Turn(Interrupted, st.(polls := st.polls + 1), true)
    else ProcessSpec(env, st.(polls := st.polls + 1), true, x, artworkUrl, page)
  }

  /**
    `now` follows `before` in the image folder and the fetch log: no file name
    disappears, the log is only extended, the poll count only grows, and a file
    that is there (not empty) stays there with its size.
  */
  ghost predicate Kept(before: ImageState, now: ImageState)
  {
    && before.files.Keys <= now.files.Keys
    && |before.fetchLog| <= |now.fetchLog| && now.fetchLog[..|before.fetchLog|] == before.fetchLog
    && before.polls <= now.polls
    && forall name :: Present(before.files, name) ==> name in now.files && now.files[name] == before.files[name]
  }

  lemma KeptTrans(a: ImageState, b: ImageState, c: ImageState)
    requires Kept(a, b) && Kept(b, c)
    ensures Kept(a, c)
  {
    assert c.fetchLog[..|b.fetchLog|][..|a.fetchLog|] == c.fetchLog[..|a.fetchLog|];
  }

  /** Polling only: the folder and the log are kept. */
  lemma KeptPolls(before: ImageState, now: ImageState)
    requires now.files == before.files && now.fetchLog == before.fetchLog && before.polls <= now.polls
    ensures Kept(before, now)
  {
    assert before.fetchLog[..|before.fetchLog|] == before.fetchLog;
  }

  /** One turn of the image loop keeps the folder and the log. */
  lemma StepKept(env: Env, st: ImageState, imageUrl: string, artworkUrl: string, page: nat)
    ensures Kept(st, StepImage(env, st, imageUrl, artworkUrl, page).after)
  {
    var s := StepImage(env, st, imageUrl, artworkUrl, page);
    if s.step.Attempted? {
      RetryFacts(env.fetch, imageUrl, env.stopAt, st.polls + 1, 0);
    }
    assert s.after.fetchLog[..|st.fetchLog|] == st.fetchLog;
  }

  /** The image loop of an artwork keeps the folder and the log. */
  lemma {:induction false} ImagesLoopKept(env: Env, st: ImageState, imageUrls: seq<string>, artworkUrl: string, page: nat, allSkipped: bool)
    ensures Kept(st, ImagesLoop(env, st, imageUrls, artworkUrl, page, allSkipped).after)
    decreases |imageUrls|
  {
    if imageUrls == [] {
      KeptPolls(st, st);
    } else {
      var s := StepImage(env, st, imageUrls[0], artworkUrl, page);
      StepKept(env, st, imageUrls[0], artworkUrl, page);
      if !s.step.StopBefore? {
        var flag := if s.step.Skipped? then allSkipped else false;
        ImagesLoopKept(env, s.after, imageUrls[1..], artworkUrl, page, flag);
        KeptTrans(st, s.after, ImagesLoop(env, s.after, imageUrls[1..], artworkUrl, page, flag).after);
      }
    }
  }

  /** Processing an artwork keeps the folder and the log; see `TurnKept`. */
  lemma ProcessKept(env: Env, st: ImageState, x: Extraction, artworkUrl: string, page: nat)
    ensures Kept(st, ProcessSpec(env, st, true, x, artworkUrl, page).after)
  {
    var mid := st.(polls := st.polls + x.polls);
    KeptPolls(st, mid);
    if x.urls != [] {
      var done := ImagesLoop(env, mid, x.urls, artworkUrl, page, true);
      assert ProcessSpec(env, st, true, x, artworkUrl, page).after == done.after.(polls := done.after.polls + 1);
      ImagesLoopKept(env, mid, x.urls, artworkUrl, page, true);
      KeptTrans(st, mid, done.after);
      KeptPolls(done.after, done.after.(polls := done.after.polls + 1));
      KeptTrans(st, done.after, done.after.(polls := done.after.polls + 1));
    }
  }

  /** Processing an artwork records failed downloads only for it; see `TurnKept`. */
  lemma ProcessFailures(env: Env, st: ImageState, x: Extraction, artworkUrl: string, page: nat)
    requires Consistent(x)
    ensures var t := ProcessSpec(env, st, true, x, artworkUrl, page);
      && AddedForArtwork(st.failedDownloads, t.after.failedDownloads, artworkUrl, page)
      && (!t.sessionValid ==> t.result.Interrupted?)
  {
    var mid := st.(polls := st.polls + x.polls);
    if x.urls == [] {
      assert st.failedDownloads[..|st.failedDownloads|] == st.failedDownloads;
    } else {
      var done := ImagesLoop(env, mid, x.urls, artworkUrl, page, true);
      assert ProcessSpec(env, st, true, x, artworkUrl, page).after == done.after.(polls := done.after.polls + 1);
      ImagesLoopBounds(env, mid, x.urls, artworkUrl, page, true);
    }
  }

  /**
    An artwork turn keeps the folder and the log, records failed downloads only
    for this artwork and page, never brings a lost session back, and is
    interrupted whenever it loses the session.
  */
  lemma TurnKept(env: Env, st: ImageState, sv: bool, x: Extraction, artworkUrl: string, page: nat)
    requires Consistent(x)
    ensures var t := TurnSpec(env, st, sv, x, artworkUrl, page);
      && Kept(st, t.after)
      && AddedForArtwork(st.failedDownloads, t.after.failedDownloads, artworkUrl, page)
      && (t.sessionValid ==> sv)
      && (!t.sessionValid ==> t.result.Interrupted?)
  {
    var polled := st.(polls := st.polls + 1);
    KeptPolls(st, polled);
    if sv && !StopSeen(env.stopAt, st.polls) {
      var t := ProcessSpec(env, polled, true, x, artworkUrl, page);
      ProcessKept(env, polled, x, artworkUrl, page);
      ProcessFailures(env, polled, x, artworkUrl, page);
      KeptTrans(st, polled, t.after);
    } else {
      KeptPolls(st, st);
      assert st.failedDownloads[..|st.failedDownloads|] == st.failedDownloads;
    }
  }

  /**
    An artwork turn fetches only the images extracted for it, at most five
    times each, and records at most one failed download per image.
  */
  lemma TurnBounds(env: Env, st: ImageState, sv: bool, x: Extraction, artworkUrl: string, page: nat)
    ensures var t := TurnSpec(env, st, sv, x, artworkUrl, page);
      && LogGrowth(st.fetchLog, t.after.fetchLog, x.urls, MaxFetchAttempts * |x.urls|)
      && FailGrowth(st.failedDownloads, t.after.failedDownloads, x.urls, artworkUrl, page, |x.urls|)
  {
    assert st.fetchLog[..|st.fetchLog|] == st.fetchLog;
    assert st.failedDownloads[..|st.failedDownloads|] == st.failedDownloads;
    if sv && !StopSeen(env.stopAt, st.polls) {
      var mid := st.(polls := st.polls + 1 + x.polls);
      ImagesLoopBounds(env, mid, x.urls, artworkUrl, page, true);
    }
  }

  /** A turn taken while the run is stopping changes nothing but the poll count. */
  lemma TurnWhileStopping(env: Env, st: ImageState, sv: bool, x: Extraction, artworkUrl: string, page: nat)
    requires !sv || StopSeen(env.stopAt, st.polls)
    ensures var t := TurnSpec(env, st, sv, x, artworkUrl, page);
      && t.result == Interrupted && t.sessionValid == sv
      && t.after.files == st.files && t.after.fetchLog == st.fetchLog
      && t.after.failedDownloads == st.failedDownloads && t.after.polls <= st.polls + 1
  {
  }

  /**
    How a turn ends: not extracted exactly when the flag is down, the session
    holds and the extraction gives no URL; done only with URLs, the flag still
    down after the images and the session kept.
  */
  lemma TurnOutcomes(env: Env, st: ImageState, sv: bool, x: Extraction, artworkUrl: string, page: nat)
    ensures var t := TurnSpec(env, st, sv, x, artworkUrl, page);
      && (t.result.NotExtracted? <==> sv && !StopSeen(env.stopAt, st.polls) && x.urls == [] && !x.sessionLost)
      && (t.result.Done? ==> sv && !StopSeen(env.stopAt, st.polls) && x.urls != [] && t.sessionValid == !x.sessionLost
                             && !StopSeen(env.stopAt, t.after.polls - 1))
  {
  }

  /**
    The turn of an artwork whose files are all there, with no stop, is counted
    as skipped and neither fetches nor writes anything.
  */
  lemma TurnSkipsDownloaded(env: Env, st: ImageState, x: Extraction, artworkUrl: string, page: nat)
    requires env.stopAt.None?
    requires x.urls != [] && forall i :: 0 <= i < |x.urls| ==> Present(st.files, FileName(x.urls[i]))
    ensures var t := TurnSpec(env, st, true, x, artworkUrl, page);
      t.result == Done(true) && t.after.files == st.files && t.after.fetchLog == st.fetchLog
      && t.after.failedDownloads == st.failedDownloads
  {
    AllPresentOnlyPolls(env, st.(polls := st.polls + 1 + x.polls), x.urls, artworkUrl, page, true);
  }

  /** A turn changes a file only under the name of one of the images extracted for the artwork. */
  lemma TurnKeepsOtherFiles(env: Env, st: ImageState, sv: bool, x: Extraction, artworkUrl: string, page: nat, name: string)
    requires forall i :: 0 <= i < |x.urls| ==> FileName(x.urls[i]) != name
    ensures var t := TurnSpec(env, st, sv, x, artworkUrl, page);
      (name in t.after.files <==> name in st.files) && (name in st.files ==> t.after.files[name] == st.files[name])
  {
    if sv && !StopSeen(env.stopAt, st.polls) {
      OtherFilesKept(env, st.(polls := st.polls + 1 + x.polls), x.urls, artworkUrl, page, true, name);
    }
  }

  class DownloadRun {
    const env: Env
    var polls: nat
    var files: map<string, nat>
    var fetchLog: seq<string>
    var failedDownloads: seq<FailedDownload>
    var failedUrls: seq<FailedArtwork>
    var processedCount: nat
    var downloadedCount: nat
    var skippedCount: nat
    var sessionValid: bool
    var seen: set<string>
    /** The artworks counted as processed in this run. */
    ghost var completedUrls: set<string>

    /** Every processed artwork is one distinct URL, counted once as skipped or as downloaded. */
    ghost predicate Valid()
      reads this
    {
      && processedCount == skippedCount + downloadedCount
      && processedCount == |completedUrls|
    }

    function Snapshot(): ImageState
      reads this`files, this`fetchLog, this`failedDownloads, this`polls
    {
      ImageState(files, fetchLog, failedDownloads, polls)
    }

    /** The run is ending: the session is lost or the stop flag is raised. */
    predicate Stopping()
      reads this
    {
      !sessionValid || StopSeen(env.stopAt, polls)
    }

    constructor (env: Env, files: map<string, nat>)
      ensures this.env == env && this.files == files && polls == 0
      ensures fetchLog == [] && failedDownloads == [] && failedUrls == []
      ensures processedCount == 0 && sessionValid && seen == {}
      ensures Valid()
    {
      this.env := env;
      this.files := files;
      polls := 0;
      fetchLog := [];
      failedDownloads := [];
      failedUrls := [];
      processedCount, downloadedCount, skippedCount := 0, 0, 0;
      sessionValid := true;
      seen := {};
      completedUrls := {};
    }

    /** The counters and lists a run starts from. */
    method Reset()
      modifies this`processedCount, this`downloadedCount, this`skippedCount, this`completedUrls,
               this`sessionValid, this`seen, this`failedUrls, this`failedDownloads
      ensures processedCount == 0 && downloadedCount == 0 && skippedCount == 0 && completedUrls == {}
      ensures sessionValid && seen == {} && failedUrls == [] && failedDownloads == []
      ensures Valid()
    {
      processedCount, downloadedCount, skippedCount := 0, 0, 0;
      completedUrls := {};
      sessionValid := true;
      seen := {};
      failedUrls := [];
      failedDownloads := [];
    }

    /** Reads the stop flag. */
    method PollStop() returns (stop: bool)
      modifies this`polls
      ensures stop == StopSeen(env.stopAt, old(polls))
      ensures polls == old(polls) + 1
    {
      stop := StopSeen(env.stopAt, polls);
      polls := polls + 1;
    }

    /** The fetch loop of one image that is not there yet. */
    method FetchWithRetry(imageUrl: string, fileName: string, artworkUrl: string, page: nat) returns (outcome: RetryOutcome)
      modifies this`polls, this`files, this`fetchLog, this`failedDownloads
      ensures outcome == Retry(env.fetch, imageUrl, env.stopAt, old(polls), 0)
      ensures Snapshot() == AfterRetry(old(Snapshot()), fileName, imageUrl, artworkUrl, page, outcome)
    {
      var attempt := 0;
      while true
        invariant 0 <= attempt < MaxFetchAttempts
        invariant polls == old(polls) + attempt
        invariant fetchLog == old(fetchLog) + Repeat(imageUrl, attempt)
        invariant files == old(files) && failedDownloads == old(failedDownloads)
        invariant Retry(env.fetch, imageUrl, env.stopAt, old(polls), 0)
               == Retry(env.fetch, imageUrl, env.stopAt, old(polls), attempt)
        decreases MaxFetchAttempts - attempt
      {
        var stop := PollStop();
        if stop {
          outcome := Cancelled(attempt);
          return;
        }
        RepeatOneMore(imageUrl, attempt);
        fetchLog := fetchLog + [imageUrl];
        var result := env.fetch(imageUrl, attempt);
        if result.Fetched? {
          files := files[fileName := result.size];
          outcome := Saved(result.size, attempt + 1);
          return;
        }
        if attempt == MaxFetchAttempts - 1 {
          failedDownloads := failedDownloads + [FailedDownload(imageUrl, artworkUrl, page, result.error)];
          outcome := GaveUp(result.error);
          return;
        }
        attempt := attempt + 1;
      }
    }

    /** One turn of the image loop. */
    method ProcessImage(imageUrl: string, artworkUrl: string, page: nat) returns (step: ImageStep)
      modifies this`polls, this`files, this`fetchLog, this`failedDownloads
      ensures Stepped(step, Snapshot()) == StepImage(env, old(Snapshot()), imageUrl, artworkUrl, page)
    {
      var stop := PollStop();
      if stop {
        return StopBefore;
      }
      var fileName := FileName(imageUrl);
      if fileName in files && files[fileName] > 0 {
        return Skipped;
      }
      var outcome := FetchWithRetry(imageUrl, fileName, artworkUrl, page);
      step := Attempted(outcome);
    }

    /** The image loop of one artwork; true when every image was skipped. */
    method DownloadImages(imageUrls: seq<string>, artworkUrl: string, page: nat) returns (allSkipped: bool)
      modifies this`polls, this`files, this`fetchLog, this`failedDownloads
      ensures ImagesDone(Snapshot(), allSkipped) == ImagesLoop(env, old(Snapshot()), imageUrls, artworkUrl, page, true)
    {
      allSkipped := true;
      var i := 0;
      while i < |imageUrls|
        invariant 0 <= i <= |imageUrls|
        invariant ImagesLoop(env, old(Snapshot()), imageUrls, artworkUrl, page, true)
               == ImagesLoop(env, Snapshot(), imageUrls[i..], artworkUrl, page, allSkipped)
      {
        assert imageUrls[i..][0] == imageUrls[i] && imageUrls[i..][1..] == imageUrls[i + 1..];
        var step := ProcessImage(imageUrls[i], artworkUrl, page);
        if step.StopBefore? {
          return;
        }
        if step.Attempted? {
          allSkipped := false;
        }
        i := i + 1;
      }
    }

    /** `get_image_urls`: the image URLs of an artwork, empty when there are none. */
    method ExtractImageUrls(artworkUrl: string) returns (urls: seq<string>)
      modifies this`polls, this`sessionValid
      ensures var x := Extract(env, artworkUrl, old(polls));
        && urls == x.urls
        && polls == old(polls) + x.polls
        && sessionValid == (old(sessionValid) && !x.sessionLost)
    {
      var attempt := 0;
      while true
        invariant 0 <= attempt < PageLoadAttempts
        invariant polls == old(polls) + attempt && sessionValid == old(sessionValid)
        invariant LoadLoop(env, artworkUrl, old(polls), 0) == LoadLoop(env, artworkUrl, old(polls), attempt)
        decreases PageLoadAttempts - attempt
      {
        var stop := PollStop();
        if stop {
          sessionValid := false;
          return [];
        }
        var load := env.artworkPage(artworkUrl, attempt);
        if load.WindowClosed? {
          sessionValid := false;
          return [];
        }
        if load.Loaded? {
          var derived := ImageUrls.DeriveImageUrls(artworkUrl, load.preview, load.ogImage, load.original);
          if derived.Success? {
            return derived.value;
          }
          if derived.error == ImageUrls.MalformedPageCount {
            // `int()` raised: the catch-all handler drops the session
            sessionValid := false;
          }
          return [];
        }
        if attempt == PageLoadAttempts - 1 {
          return [];
        }
        attempt := attempt + 1;
      }
    }

    /** One artwork of a page: extract its images, download them and count it. */
    method ProcessArtwork(artworkUrl: string, page: nat) returns (result: ArtworkResult)
      requires Valid() && artworkUrl !in completedUrls
      modifies this`polls, this`sessionValid, this`files, this`fetchLog, this`failedDownloads, this`failedUrls,
               this`processedCount, this`downloadedCount, this`skippedCount, this`completedUrls
      ensures Valid()
      ensures Turn(result, Snapshot(), sessionValid)
           == ProcessSpec(env, old(Snapshot()), old(sessionValid), Extract(env, artworkUrl, old(polls)), artworkUrl, page)
      ensures result.Interrupted? ==> Stopping()
      ensures AddedForArtwork(old(failedDownloads), failedDownloads, artworkUrl, page)
      ensures failedUrls == old(failedUrls) + (if result.NotExtracted? then [FailedArtwork(artworkUrl, page, ExtractionFailed)] else [])
      ensures processedCount == old(processedCount) + (if result.Done? then 1 else 0)
      ensures skippedCount == old(skippedCount) + (if result.Done? && result.allSkipped then 1 else 0)
      ensures downloadedCount == old(downloadedCount) + (if result.Done? && !result.allSkipped then 1 else 0)
      ensures Grew(completedUrls, old(completedUrls), if result.Done? then {artworkUrl} else {})
    {
      ghost var st, sv := Snapshot(), sessionValid;
      var urls := ExtractImageUrls(artworkUrl);
      result := ProcessExtracted(artworkUrl, urls, page, st, sv, Extract(env, artworkUrl, old(polls)));
    }

    /**
      The rest of an artwork once its extraction `x` is known, the run having been
      in state `st` with session flag `sv` before it.
    */
    method ProcessExtracted(artworkUrl: string, urls: seq<string>, page: nat,
                            ghost st: ImageState, ghost sv: bool, ghost x: Extraction)
      returns (result: ArtworkResult)
      requires Valid() && artworkUrl !in completedUrls
      requires urls == x.urls && Snapshot() == st.(polls := st.polls + x.polls)
      requires sessionValid == (sv && !x.sessionLost)
      modifies this`polls, this`files, this`fetchLog, this`failedDownloads, this`failedUrls,
               this`processedCount, this`downloadedCount, this`skippedCount, this`completedUrls
      ensures Valid()
      ensures Turn(result, Snapshot(), sessionValid) == ProcessSpec(env, st, sv, x, artworkUrl, page)
      ensures result.Interrupted? ==> Stopping()
      ensures AddedForArtwork(old(failedDownloads), failedDownloads, artworkUrl, page)
      ensures failedUrls == old(failedUrls) + (if result.NotExtracted? then [FailedArtwork(artworkUrl, page, ExtractionFailed)] else [])
      ensures processedCount == old(processedCount) + (if result.Done? then 1 else 0)
      ensures skippedCount == old(skippedCount) + (if result.Done? && result.allSkipped then 1 else 0)
      ensures downloadedCount == old(downloadedCount) + (if result.Done? && !result.allSkipped then 1 else 0)
      ensures Grew(completedUrls, old(completedUrls), if result.Done? then {artworkUrl} else {})
    {
      if urls == [] {
        ProcessSpecEmpty(env, st, sv, x, artworkUrl, page);
        if !sessionValid {
          return Interrupted;
        }
        failedUrls := failedUrls + [FailedArtwork(artworkUrl, page, ExtractionFailed)];
        return NotExtracted;
      }
      ProcessSpecImages(env, st, sv, x, artworkUrl, page);
      result := FinishArtwork(artworkUrl, urls, page);
    }

    /** An artwork with image URLs: download them, then count it unless the run is stopping. */
    method FinishArtwork(artworkUrl: string, urls: seq<string>, page: nat) returns (result: ArtworkResult)
      requires Valid() && artworkUrl !in completedUrls
      modifies this`polls, this`files, this`fetchLog, this`failedDownloads,
               this`processedCount, this`downloadedCount, this`skippedCount, this`completedUrls
      ensures Valid()
      ensures var done := ImagesLoop(env, old(Snapshot()), urls, artworkUrl, page, true);
        && Snapshot() == done.after.(polls := done.after.polls + 1)
        && result == (if StopSeen(env.stopAt, done.after.polls) then Interrupted else Done(done.allSkipped))
      ensures result.Interrupted? ==> StopSeen(env.stopAt, polls)
      ensures AddedForArtwork(old(failedDownloads), failedDownloads, artworkUrl, page)
      ensures processedCount == old(processedCount) + (if result.Done? then 1 else 0)
      ensures skippedCount == old(skippedCount) + (if result.Done? && result.allSkipped then 1 else 0)
      ensures downloadedCount == old(downloadedCount) + (if result.Done? && !result.allSkipped then 1 else 0)
      ensures Grew(completedUrls, old(completedUrls), if result.Done? then {artworkUrl} else {})
    {
      var allSkipped := DownloadImages(urls, artworkUrl, page);
      ImagesLoopBounds(env, old(Snapshot()), urls, artworkUrl, page, true);
      var stop := PollStop();
      if stop {
        return Interrupted;
      }
      processedCount := processedCount + 1;
      completedUrls := completedUrls + {artworkUrl};
      if allSkipped {
        skippedCount := skippedCount + 1;
      } else {
        downloadedCount := downloadedCount + 1;
      }
      result := Done(allSkipped);
    }

    /** Records every artwork of `urls` as interrupted on `page`, in some order. */
    method ReportInterrupted(urls: set<string>, page: nat)
      modifies this`failedUrls
      ensures Reported(old(failedUrls), failedUrls, page, {}, urls)
    {
      var rest := urls;
      ghost var added: seq<FailedArtwork> := [];
      while rest != {}
        invariant forall u :: u in rest ==> u in urls
        invariant failedUrls == old(failedUrls) + added
        invariant Entries(added, page, {}, urls - rest)
        decreases |rest|
      {
        var u :| u in rest;
        var e := FailedArtwork(u, page, SessionInterrupted);
        failedUrls := failedUrls + [e];
        EntriesAppend(added, page, {}, urls - rest, e);
        added := added + [e];
        assert urls - rest + {u} == urls - (rest - {u});
        rest := rest - {u};
      }
      assert urls - rest == urls;
      assert failedUrls[..|old(failedUrls)|] == old(failedUrls) && failedUrls[|old(failedUrls)|..] == added;
    }

    /** The new artwork links of a page; the seen set grows by them. */
    method CollectPageLinks(hrefs: seq<string>) returns (pageLinked: set<string>)
      modifies this`seen
      ensures pageLinked == LinkedArtworks(hrefs) - old(seen)
      ensures seen == old(seen) + LinkedArtworks(hrefs)
    {
      pageLinked := {};
      var i := 0;
      while i < |hrefs|
        invariant 0 <= i <= |hrefs|
        invariant pageLinked == LinkedArtworks(hrefs[..i]) - old(seen)
        invariant seen == old(seen) + LinkedArtworks(hrefs[..i])
      {
        LinkedArtworksStep(hrefs, i);
        var href := hrefs[i];
        if IsArtworkHref(href) {
          var fullUrl := SiteRoot + href;
          if fullUrl !in seen {
            pageLinked := pageLinked + {fullUrl};
            seen := seen + {fullUrl};
          }
        }
        i := i + 1;
      }
      assert hrefs[..|hrefs|] == hrefs;
    }

    /** One turn of the artwork loop of a page: unless the run is stopping, process `artworkUrl`. */
    method ArtworkTurn(artworkUrl: string, page: nat) returns (result: ArtworkResult)
      requires Valid() && artworkUrl !in completedUrls
      modifies this`polls, this`sessionValid, this`files, this`fetchLog, this`failedDownloads, this`failedUrls,
               this`processedCount, this`downloadedCount, this`skippedCount, this`completedUrls
      ensures Valid()
      ensures Turn(result, Snapshot(), sessionValid)
           == TurnSpec(env, old(Snapshot()), old(sessionValid), Extract(env, artworkUrl, old(polls) + 1), artworkUrl, page)
      ensures result.Interrupted? ==> Stopping()
      ensures AddedForArtwork(old(failedDownloads), failedDownloads, artworkUrl, page)
      ensures failedUrls == old(failedUrls) + (if result.NotExtracted? then [FailedArtwork(artworkUrl, page, ExtractionFailed)] else [])
      ensures processedCount == old(processedCount) + (if result.Done? then 1 else 0)
      ensures skippedCount == old(skippedCount) + (if result.Done? && result.allSkipped then 1 else 0)
      ensures downloadedCount == old(downloadedCount) + (if result.Done? && !result.allSkipped then 1 else 0)
      ensures Grew(completedUrls, old(completedUrls), if result.Done? then {artworkUrl} else {})
      ensures Kept(old(Snapshot()), Snapshot())
    {
      var stopping := !sessionValid;
      if !stopping {
        stopping := PollStop();
      }
      KeptPolls(old(Snapshot()), Snapshot());
      if stopping {
        assert failedDownloads[..|failedDownloads|] == failedDownloads;
        return Interrupted;
      }
      ghost var polled := Snapshot();
      ghost var x := Extract(env, artworkUrl, polls);
      assert TurnSpec(env, old(Snapshot()), old(sessionValid), x, artworkUrl, page)
          == ProcessSpec(env, polled, true, x, artworkUrl, page);
      ProcessKept(env, polled, x, artworkUrl, page);
      result := ProcessArtwork(artworkUrl, page);
      KeptTrans(old(Snapshot()), polled, Snapshot());
    }

    /**
      The artwork loop of a page, in some order of the set: each artwork ends
      completed, not extracted, or interrupted with the rest of the page.
    */
    method DownloadPageLinks(pageLinked: set<string>, page: nat)
      returns (completed: set<string>, notExtracted: set<string>, interrupted: set<string>)
      requires Valid() && pageLinked !! completedUrls
      modifies this`polls, this`sessionValid, this`files, this`fetchLog, this`failedDownloads, this`failedUrls,
               this`processedCount, this`downloadedCount, this`skippedCount, this`completedUrls
      ensures Valid()
      ensures forall u :: u in pageLinked <==> u in completed || u in notExtracted || u in interrupted
      ensures forall u :: u in completed ==> u !in notExtracted && u !in interrupted
      ensures forall u :: u in notExtracted ==> u !in interrupted
      ensures Grew(completedUrls, old(completedUrls), completed)
      ensures processedCount == old(processedCount) + |completed|
      ensures interrupted != {} ==> Stopping()
      ensures Reported(old(failedUrls), failedUrls, page, notExtracted, interrupted)
      ensures AddedForPage(old(failedDownloads), failedDownloads, page)
      ensures Kept(old(Snapshot()), Snapshot())
    {
      completed, notExtracted, interrupted := ArtworkLoop(pageLinked, page);
      if interrupted != {} {
        ghost var mid := failedUrls;
        ReportInterrupted(interrupted, page);
        ReportedConcat(old(failedUrls), mid, failedUrls, page, notExtracted, interrupted);
      }
    }

    /**
      The `for` loop over the new artworks of a page, in some order of the set. It
      ends early, with `remaining` not empty, when the run is stopping.
    */
    method ArtworkLoop(pageLinked: set<string>, page: nat)
      returns (completed: set<string>, notExtracted: set<string>, remaining: set<string>)
      requires Valid() && pageLinked !! completedUrls
      modifies this`polls, this`sessionValid, this`files, this`fetchLog, this`failedDownloads, this`failedUrls,
               this`processedCount, this`downloadedCount, this`skippedCount, this`completedUrls
      ensures Valid()
      ensures Partition(pageLinked, remaining, completed, notExtracted)
      ensures Grew(completedUrls, old(completedUrls), completed)
      ensures processedCount == old(processedCount) + |completed|
      ensures remaining != {} ==> Stopping()
      ensures Reported(old(failedUrls), failedUrls, page, notExtracted, {})
      ensures AddedForPage(old(failedDownloads), failedDownloads, page)
      ensures Kept(old(Snapshot()), Snapshot())
    {
      KeptPolls(Snapshot(), Snapshot());
      completed, notExtracted := {}, {};
      remaining := pageLinked;
      var stopped := false;
      ghost var added: seq<FailedArtwork> := [];
      assert failedDownloads[..|failedDownloads|] == failedDownloads;
      while remaining != {} && !stopped
        invariant Valid()
        invariant Partition(pageLinked, remaining, completed, notExtracted)
        invariant Grew(completedUrls, old(completedUrls), completed)
        invariant stopped ==> Stopping()
        invariant failedUrls == old(failedUrls) + added
        invariant Entries(added, page, notExtracted, {})
        invariant AddedForPage(old(failedDownloads), failedDownloads, page)
        invariant Kept(old(Snapshot()), Snapshot())
        decreases |remaining|, !stopped
      {
        var u :| u in remaining;
        ghost var completed0, notExtracted0 := completed, notExtracted;
        var r;
        r, completed, notExtracted, added :=
          ArtworkStep(pageLinked, remaining, completed, notExtracted, u, page,
                      old(completedUrls), old(failedUrls), added, old(failedDownloads), old(Snapshot()));
        if r.Interrupted? {
          stopped := true;
        } else {
          if r.Done? {
            MoveToFirst(pageLinked, remaining, completed0, notExtracted0, u);
          } else {
            MoveToSecond(pageLinked, remaining, completed0, notExtracted0, u);
          }
          remaining := remaining - {u};
        }
      }
      assert failedUrls[..|old(failedUrls)|] == old(failedUrls) && failedUrls[|old(failedUrls)|..] == added;
      GrewSize(completedUrls, old(completedUrls), completed);
    }

    /**
      The body of the artwork loop: one turn for `u`, and the book-keeping of
      which artworks of the page ended how. `startCompleted`, `startUrls`,
      `startDownloads` and `startState` are the state the loop started from.
    */
    method ArtworkStep(pageLinked: set<string>, remaining: set<string>, completed: set<string>,
                       notExtracted: set<string>, u: string, page: nat,
                       ghost startCompleted: set<string>, ghost startUrls: seq<FailedArtwork>,
                       ghost added: seq<FailedArtwork>, ghost startDownloads: seq<FailedDownload>,
                       ghost startState: ImageState)
      returns (r: ArtworkResult, completed': set<string>, notExtracted': set<string>, ghost added': seq<FailedArtwork>)
      requires Valid() && u in remaining && pageLinked !! startCompleted
      requires Partition(pageLinked, remaining, completed, notExtracted)
      requires Grew(completedUrls, startCompleted, completed)
      requires failedUrls == startUrls + added && Entries(added, page, notExtracted, {})
      requires AddedForPage(startDownloads, failedDownloads, page)
      requires Kept(startState, Snapshot())
      modifies this`polls, this`sessionValid, this`files, this`fetchLog, this`failedDownloads, this`failedUrls,
               this`processedCount, this`downloadedCount, this`skippedCount, this`completedUrls
      ensures Valid()
      ensures Turn(r, Snapshot(), sessionValid)
           == TurnSpec(env, old(Snapshot()), old(sessionValid), Extract(env, u, old(polls) + 1), u, page)
      ensures skippedCount == old(skippedCount) + (if r.Done? && r.allSkipped then 1 else 0)
      ensures downloadedCount == old(downloadedCount) + (if r.Done? && !r.allSkipped then 1 else 0)
      ensures Grew(completedUrls, startCompleted, completed')
      ensures failedUrls == startUrls + added' && Entries(added', page, notExtracted', {})
      ensures AddedForPage(startDownloads, failedDownloads, page)
      ensures Kept(startState, Snapshot())
      ensures r.Interrupted? ==> Stopping()
      ensures r.Interrupted? ==> completed' == completed && notExtracted' == notExtracted
      ensures r.Done? ==> completed' == completed + {u} && notExtracted' == notExtracted
      ensures r.NotExtracted? ==> completed' == completed && notExtracted' == notExtracted + {u}
    {
      assert u in pageLinked && u !in completed;
      ghost var downloadsBefore := failedDownloads;
      ghost var before := Snapshot();
      r := ArtworkTurn(u, page);
      KeptTrans(startState, before, Snapshot());
      AddedForPageTrans(startDownloads, downloadsBefore, failedDownloads, page);
      completed', notExtracted', added' := completed, notExtracted, added;
      if r.Done? {
        completed' := completed + {u};
      } else if r.NotExtracted? {
        var e := FailedArtwork(u, page, ExtractionFailed);
        EntriesAppend(added, page, notExtracted, {}, e);
        ConcatAssociative(startUrls, added, [e]);
        added' := added + [e];
        notExtracted' := notExtracted + {u};
      }
    }

    /** The search for the next-page control, at most three times; true when the walk moved on. */
    method NextPageWithRetry(attempts: seq<NextLookup>, pageNum: nat) returns (found: bool)
      modifies this`polls
      ensures var s := NextSearch(env.stopAt, old(polls), attempts, pageNum, 0);
        found == s.found && polls == old(polls) + s.polls
    {
      found := false;
      var attempt := 0;
      while attempt < NextSearchAttempts
        invariant 0 <= attempt <= NextSearchAttempts
        invariant polls == old(polls) + attempt
        invariant NextSearch(env.stopAt, old(polls), attempts, pageNum, 0)
               == NextSearch(env.stopAt, old(polls), attempts, pageNum, attempt)
      {
        var stop := PollStop();
        if stop {
          return;
        }
        var view := AttemptView(attempts, attempt);
        if |view.candidates| > 0 {
          var next := SelectNext(view.candidates, pageNum);
          if next.Some? && view.urlChanged {
            found := true;
            return;
          }
        }
        attempt := attempt + 1;
      }
    }

    /**
      `download_all`: walks the listing from page 1, `listing[k - 1]` being page k
      (a page past the end does not load). Returns the page the walk ended on.
    */
    method DownloadAll(rootLoads: bool, listing: seq<ListingPage>) returns (lastPage: nat)
      modifies this
      ensures Valid() && completedUrls <= seen
      ensures 1 <= lastPage <= |listing| + 1
      ensures forall k :: 0 <= k < lastPage - 1 ==> WalksOn(listing[k], k + 1)
      ensures rootLoads && env.stopAt.None? && sessionValid ==>
        lastPage == |listing| + 1 || !WalksOn(listing[lastPage - 1], lastPage)
      ensures || seen == SeenAfter({}, PageHrefs(listing[..lastPage - 1]))
              || (lastPage <= |listing| && seen == SeenAfter({}, PageHrefs(listing[..lastPage])))
      ensures rootLoads && env.stopAt.None? && sessionValid ==>
        seen == if lastPage <= |listing| && listing[lastPage - 1].loaded && listing[lastPage - 1].navShown
                then SeenAfter({}, PageHrefs(listing[..lastPage]))
                else SeenAfter({}, PageHrefs(listing[..lastPage - 1]))
      ensures ArtworksWithin(failedUrls, lastPage) && DownloadsWithin(failedDownloads, lastPage)
      ensures Kept(old(Snapshot()), Snapshot())
    {
      Reset();
      KeptPolls(old(Snapshot()), Snapshot());
      lastPage := 1;
      var stop := PollStop();
      if !stop {
        stop := PollStop();
        if stop || !rootLoads {
          KeptPolls(old(Snapshot()), Snapshot());
          assert !rootLoads || env.stopAt.Some?;
          return;
        }
      }
      KeptPolls(old(Snapshot()), Snapshot());
      ghost var before := Snapshot();
      lastPage := WalkListing(listing);
      KeptTrans(old(Snapshot()), before, Snapshot());
    }

    /** The page loop of `download_all`, from page 1 of `listing`. */
    method WalkListing(listing: seq<ListingPage>) returns (lastPage: nat)
      requires Valid() && completedUrls == {} && seen == {}
      requires failedUrls == [] && failedDownloads == []
      modifies this`polls, this`sessionValid, this`files, this`fetchLog, this`failedDownloads, this`failedUrls,
               this`processedCount, this`downloadedCount, this`skippedCount, this`completedUrls, this`seen
      ensures Valid() && completedUrls <= seen
      ensures 1 <= lastPage <= |listing| + 1
      ensures forall k :: 0 <= k < lastPage - 1 ==> WalksOn(listing[k], k + 1)
      ensures env.stopAt.None? && sessionValid ==>
        lastPage == |listing| + 1 || !WalksOn(listing[lastPage - 1], lastPage)
      ensures || seen == SeenAfter({}, PageHrefs(listing[..lastPage - 1]))
              || (lastPage <= |listing| && seen == SeenAfter({}, PageHrefs(listing[..lastPage])))
      ensures env.stopAt.None? && sessionValid ==>
        seen == if lastPage <= |listing| && listing[lastPage - 1].loaded && listing[lastPage - 1].navShown
                then SeenAfter({}, PageHrefs(listing[..lastPage]))
                else SeenAfter({}, PageHrefs(listing[..lastPage - 1]))
      ensures ArtworksWithin(failedUrls, lastPage) && DownloadsWithin(failedDownloads, lastPage)
      ensures Kept(old(Snapshot()), Snapshot())
    {
      KeptPolls(old(Snapshot()), Snapshot());
      var pageNum := 1;
      lastPage := 1;
      while true
        invariant Valid() && completedUrls <= seen
        invariant 1 <= pageNum <= |listing| + 1 && lastPage == pageNum
        invariant forall k :: 0 <= k < pageNum - 1 ==> WalksOn(listing[k], k + 1)
        invariant seen == SeenAfter({}, PageHrefs(listing[..pageNum - 1]))
        invariant ArtworksWithin(failedUrls, pageNum) && DownloadsWithin(failedDownloads, pageNum)
        invariant Kept(old(Snapshot()), Snapshot())
        decreases |listing| + 1 - pageNum
      {
        if !sessionValid {
          return;
        }
        ghost var before := Snapshot();
        var next := WalkRound(pageNum, listing);
        KeptTrans(old(Snapshot()), before, Snapshot());
        if !next {
          return;
        }
        WithinNext(failedUrls, failedDownloads, pageNum);
        pageNum := pageNum + 1;
        lastPage := pageNum;
      }
    }

    /**
      One round of the loop in `download_all`: poll for a stop, then walk page
      `pageNum` when the listing has it. True when the walk moves on to the next page.
    */
    method WalkRound(pageNum: nat, listing: seq<ListingPage>) returns (next: bool)
      requires Valid() && completedUrls <= seen
      requires 1 <= pageNum <= |listing| + 1
      requires forall k :: 0 <= k < pageNum - 1 ==> WalksOn(listing[k], k + 1)
      requires seen == SeenAfter({}, PageHrefs(listing[..pageNum - 1]))
      requires ArtworksWithin(failedUrls, pageNum) && DownloadsWithin(failedDownloads, pageNum)
      modifies this`polls, this`sessionValid, this`files, this`fetchLog, this`failedDownloads, this`failedUrls,
               this`processedCount, this`downloadedCount, this`skippedCount, this`completedUrls, this`seen
      ensures Valid() && completedUrls <= seen
      ensures ArtworksWithin(failedUrls, pageNum) && DownloadsWithin(failedDownloads, pageNum)
      ensures next ==> pageNum <= |listing| && (forall k :: 0 <= k < pageNum ==> WalksOn(listing[k], k + 1))
      ensures next ==> seen == SeenAfter({}, PageHrefs(listing[..pageNum]))
      ensures seen == if pageNum <= |listing| && listing[pageNum - 1].loaded && listing[pageNum - 1].navShown
                         && !StopSeen(env.stopAt, old(polls) + 1)
                      then SeenAfter({}, PageHrefs(listing[..pageNum]))
                      else SeenAfter({}, PageHrefs(listing[..pageNum - 1]))
      ensures env.stopAt.None? && sessionValid && pageNum <= |listing| && WalksOn(listing[pageNum - 1], pageNum) ==> next
      ensures Kept(old(Snapshot()), Snapshot())
    {
      next := false;
      var stop := PollStop();
      KeptPolls(old(Snapshot()), Snapshot());
      if stop || pageNum > |listing| {
        return;
      }
      ghost var before := Snapshot();
      next := WalkPage(pageNum, listing[pageNum - 1]);
      KeptTrans(old(Snapshot()), before, Snapshot());
      SeenAfterNext(listing, pageNum - 1);
      if next {
        ghost var walked := listing[pageNum - 1];
        assert WalksOn(walked, pageNum);
        forall k | 0 <= k < pageNum
          ensures WalksOn(listing[k], k + 1)
        {
          if k == pageNum - 1 {
            assert listing[k] == walked;
          }
        }
      }
    }

    /**
      One page of the walk in `download_all`, once it is known to exist: load it,
      download its new artworks, and look for the next page. True when the walk moves on.
    */
    method WalkPage(pageNum: nat, view: ListingPage) returns (next: bool)
      requires 1 <= pageNum && Valid() && completedUrls <= seen
      requires ArtworksWithin(failedUrls, pageNum) && DownloadsWithin(failedDownloads, pageNum)
      modifies this`polls, this`sessionValid, this`files, this`fetchLog, this`failedDownloads, this`failedUrls,
               this`processedCount, this`downloadedCount, this`skippedCount, this`completedUrls, this`seen
      ensures Valid() && completedUrls <= seen
      ensures ArtworksWithin(failedUrls, pageNum) && DownloadsWithin(failedDownloads, pageNum)
      ensures seen == if view.loaded && view.navShown && !StopSeen(env.stopAt, old(polls))
                      then old(seen) + LinkedArtworks(view.hrefs) else old(seen)
      ensures next ==> WalksOn(view, pageNum) && seen == old(seen) + LinkedArtworks(view.hrefs)
      ensures env.stopAt.None? && sessionValid && WalksOn(view, pageNum) ==> next
      ensures Kept(old(Snapshot()), Snapshot())
    {
      next := false;
      KeptPolls(old(Snapshot()), Snapshot());
      if !view.loaded {
        return;
      }
      var stop := PollStop();
      KeptPolls(old(Snapshot()), Snapshot());
      if stop || !view.navShown {
        return;
      }
      var pageLinked := CollectPageLinks(view.hrefs);
      ghost var downloadsBefore := failedDownloads;
      ghost var failedBefore := failedUrls;
      ghost var before := Snapshot();
      var completed, notExtracted, interrupted := DownloadPageLinks(pageLinked, pageNum);
      KeptTrans(old(Snapshot()), before, Snapshot());
      ReportedWithin(failedBefore, failedUrls, pageNum, notExtracted, interrupted);
      AddedWithin(downloadsBefore, failedDownloads, pageNum);
      if !sessionValid {
        return;
      }
      before := Snapshot();
      next := LeavePage(view, pageNum);
      KeptPolls(before, Snapshot());
      KeptTrans(old(Snapshot()), before, Snapshot());
    }

    /** The end of a walked page: back on the listing, search for the next-page control. */
    method LeavePage(view: ListingPage, pageNum: nat) returns (next: bool)
      modifies this`polls
      ensures old(polls) <= polls
      ensures next ==> view.returned && NextFound(view.nextAttempts, pageNum)
      ensures env.stopAt.None? && view.returned && NextFound(view.nextAttempts, pageNum) ==> next
    {
      next := false;
      var stop := PollStop();
      if stop {
        return;
      }
      stop := PollStop();
      if stop || !view.returned {
        return;
      }
      ghost var searchFrom := polls;
      next := NextPageWithRetry(view.nextAttempts, pageNum);
      NextSearchFacts(env.stopAt, searchFrom, view.nextAttempts, pageNum, 0);
    }

    /** `download_page`: the artworks of one listing page. */
    method DownloadPage(pageNum: nat, view: ListingPage)
      modifies this
      ensures Valid() && completedUrls <= seen
      ensures seen == if view.loaded && view.navShown && !StopSeen(env.stopAt, old(polls) + 2)
                      then LinkedArtworks(view.hrefs) else {}
      ensures forall i :: 0 <= i < |failedUrls| ==> failedUrls[i].page == pageNum && failedUrls[i].url in seen
      ensures seen == completedUrls + Urls(failedUrls) && completedUrls !! Urls(failedUrls)
      ensures processedCount + |failedUrls| == |seen|
      ensures Kept(old(Snapshot()), Snapshot())
    {
      Reset();
      KeptPolls(old(Snapshot()), Snapshot());
      var stop := PollStop();
      if !stop {
        stop := PollStop();
        if stop || !view.loaded {
          KeptPolls(old(Snapshot()), Snapshot());
          return;
        }
      }
      stop := PollStop();
      KeptPolls(old(Snapshot()), Snapshot());
      if stop || !view.navShown {
        return;
      }
      ghost var before := Snapshot();
      PageArtworks(pageNum, view.hrefs);
      KeptTrans(old(Snapshot()), before, Snapshot());
    }

    /** The artworks linked from a loaded page of `download_page`, starting from a reset run. */
    method PageArtworks(pageNum: nat, hrefs: seq<string>)
      requires Valid() && seen == {} && completedUrls == {} && failedUrls == []
      modifies this`polls, this`sessionValid, this`files, this`fetchLog, this`failedDownloads, this`failedUrls,
               this`processedCount, this`downloadedCount, this`skippedCount, this`completedUrls, this`seen
      ensures Valid() && completedUrls <= seen && seen == LinkedArtworks(hrefs)
      ensures forall i :: 0 <= i < |failedUrls| ==> failedUrls[i].page == pageNum && failedUrls[i].url in seen
      ensures seen == completedUrls + Urls(failedUrls) && completedUrls !! Urls(failedUrls)
      ensures processedCount + |failedUrls| == |seen|
      ensures Kept(old(Snapshot()), Snapshot())
    {
      KeptPolls(old(Snapshot()), Snapshot());
      var pageLinked := CollectPageLinks(hrefs);
      assert pageLinked == seen;
      ghost var before := Snapshot();
      var completed, notExtracted, interrupted := DownloadPageLinks(pageLinked, pageNum);
      KeptTrans(old(Snapshot()), before, Snapshot());
      ghost var done, failed := completedUrls, failedUrls;
      assert Grew(done, {}, completed) && Reported([], failed, pageNum, notExtracted, interrupted);
      PageAccount(pageLinked, done, failed, pageNum, completed, notExtracted, interrupted);
    }

    /** `download_url`: the images of one artwork, recorded as page 1. */
    method DownloadUrl(artworkUrl: string)
      modifies this
      ensures Valid() && processedCount <= 1
      ensures processedCount == 1 <==> completedUrls == {artworkUrl}
      ensures forall d :: d in failedDownloads ==> d.artworkUrl == artworkUrl && d.page == 1
      ensures var start := ImageState(old(files), old(fetchLog), [], old(polls) + 1);
        StopSeen(env.stopAt, old(polls)) ==>
          Snapshot() == start && sessionValid && failedUrls == [] && processedCount == 0
      ensures var start := ImageState(old(files), old(fetchLog), [], old(polls) + 1);
        var t := ProcessSpec(env, start, true, Extract(env, artworkUrl, old(polls) + 1), artworkUrl, 1);
        !StopSeen(env.stopAt, old(polls)) ==>
          && Snapshot() == t.after && sessionValid == t.sessionValid
          && failedUrls == UrlFailure(artworkUrl, t.result)
          && processedCount == (if t.result.Done? then 1 else 0)
          && skippedCount == (if t.result.Done? && t.result.allSkipped then 1 else 0)
          && downloadedCount == (if t.result.Done? && !t.result.allSkipped then 1 else 0)
    {
      Reset();
      var stop := PollStop();
      if stop {
        return;
      }
      ghost var start := Snapshot();
      assert start == ImageState(old(files), old(fetchLog), [], old(polls) + 1);
      var r := ProcessArtwork(artworkUrl, 1);
      ghost var t := Turn(r, Snapshot(), sessionValid);
      assert t == ProcessSpec(env, start, true, Extract(env, artworkUrl, old(polls) + 1), artworkUrl, 1);
      if r.Interrupted? {
        failedUrls := failedUrls + [FailedArtwork(artworkUrl, 1, SessionInterrupted)];
      }
      assert failedUrls == UrlFailure(artworkUrl, t.result);
      assert failedDownloads[..0] == [];
    }
  }
}
