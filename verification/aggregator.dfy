/** ScraperService.analyze as a merge of outcomes: the cache lookup, the
    three fetches and the cache save are inputs, each either a value or a
    failure, and the model computes the response and the row handed to the
    save. */
module Aggregator {
  import opened Wrappers
  import opened Extraction
  import opened CourseCache

  /** The analysis result returned to the client. */
  datatype AnalyzeResponse = AnalyzeResponse(
    professorName: string,
    courseId: string,
    avgRating: Option<real>,
    sentimentSummary: Option<string>,
    redditTopThreads: seq<string>,
    githubTopRepos: seq<string>)

  /** One analysis: the response, and the row the cache now holds for it
      (None when the save failed and nothing was written). */
  datatype Analysis = Analysis(response: AnalyzeResponse, stored: Option<CacheEntry>)

  /** The observable effects of one analyze call.

      - `lookup`: the newest cached row for the pair, or Failed when the
        repository threw (the lookup is outside any try, so the call fails).
      - `ratingFetch`, `redditFetch`, `githubFetch`: what each fetcher
        returned, or Failed when it threw (the exception is swallowed).
      - `checkedAt`, `savedAt`: the two clock readings, in the freshness
        check and in the save.
      - `saveOk`: whether the repository accepted the save. */
  function Analyze(professorName: string, courseId: string, lookup: Fetch<Option<CacheEntry>>,
                   ratingFetch: Fetch<Option<real>>, redditFetch: Fetch<seq<string>>,
                   githubFetch: Fetch<seq<string>>, checkedAt: int, savedAt: int, saveOk: bool): (r: Fetch<Analysis>)
    ensures r.Failed? <==> lookup.Failed?
    ensures r.Ok? ==> r.value.response.professorName == professorName && r.value.response.courseId == courseId
    ensures r.Ok? && ratingFetch.Ok? && ratingFetch.value.Some? ==> r.value.response.avgRating == ratingFetch.value
    ensures r.Ok? && !(ratingFetch.Ok? && ratingFetch.value.Some?) ==>
      r.value.response.avgRating == (if lookup.value.Some? then lookup.value.value.avgRating else None)
    ensures r.Ok? ==> (r.value.response.sentimentSummary.None? <==> redditFetch.Failed?)
    ensures r.Ok? && redditFetch.Failed? ==> r.value.response.redditTopThreads == []
    ensures r.Ok? && redditFetch.Ok? ==>
      && r.value.response.redditTopThreads == redditFetch.value
      && r.value.response.sentimentSummary == Some(SummarizeTitles(redditFetch.value))
    ensures r.Ok? ==> r.value.response.githubTopRepos == githubFetch.ValueOr([])
    ensures r.Ok? ==> (r.value.stored.Some? <==> saveOk)
    ensures r.Ok? && saveOk ==>
      r.value.stored == Some(PersistCache(lookup.value, professorName, courseId,
                                          r.value.response.avgRating, r.value.response.sentimentSummary, savedAt))
  {
    match lookup
    case Failed => Failed
    case Ok(cached) =>
      // the rating of a fresh cached row is taken first ...
      var rating :=
        if cached.Some? && cached.value.avgRating.Some? && IsCacheFresh(cached.value, checkedAt)
        then cached.value.avgRating else None;
      // ... a number from the fetch replaces it ...
      var rating := if ratingFetch.Ok? && ratingFetch.value.Some? then ratingFetch.value else rating;
      // ... and with neither, the cached rating is used whatever its age.
      var rating := if rating.None? && cached.Some? then cached.value.avgRating else rating;
      var reddit := redditFetch.ValueOr([]);
      var summary := if redditFetch.Ok? then Some(SummarizeTitles(redditFetch.value)) else None;
      var github := githubFetch.ValueOr([]);
      var entry := PersistCache(cached, professorName, courseId, rating, summary, savedAt);
      Ok(Analysis(
        AnalyzeResponse(professorName, courseId, rating, summary, reddit, github),
        if saveOk then Some(entry) else None))
  }

  /** Cache freshness never changes the rating: the response is the same
      at any clock reading, and whether or not the save succeeds. */
  lemma ResponseIgnoresClockAndSave(professorName: string, courseId: string, lookup: Fetch<Option<CacheEntry>>,
                                    ratingFetch: Fetch<Option<real>>, redditFetch: Fetch<seq<string>>,
                                    githubFetch: Fetch<seq<string>>,
                                    checkedAt: int, savedAt: int, saveOk: bool,
                                    checkedAt': int, savedAt': int, saveOk': bool)
    ensures var a := Analyze(professorName, courseId, lookup, ratingFetch, redditFetch, githubFetch, checkedAt, savedAt, saveOk);
            var b := Analyze(professorName, courseId, lookup, ratingFetch, redditFetch, githubFetch, checkedAt', savedAt', saveOk');
            (a.Ok? && b.Ok? && a.value.response == b.value.response) || (a.Failed? && b.Failed?)
  {
  }

  /** One fetcher failing leaves the parts of the response the others
      produce unchanged. */
  lemma FetchersAreIsolated(professorName: string, courseId: string, lookup: Fetch<Option<CacheEntry>>,
                            ratingFetch: Fetch<Option<real>>, redditFetch: Fetch<seq<string>>,
                            githubFetch: Fetch<seq<string>>, checkedAt: int, savedAt: int, saveOk: bool)
    requires lookup.Ok?
    ensures var a := Analyze(professorName, courseId, lookup, ratingFetch, redditFetch, githubFetch, checkedAt, savedAt, saveOk).value.response;
            var noRating := Analyze(professorName, courseId, lookup, Failed, redditFetch, githubFetch, checkedAt, savedAt, saveOk).value.response;
            var noReddit := Analyze(professorName, courseId, lookup, ratingFetch, Failed, githubFetch, checkedAt, savedAt, saveOk).value.response;
            var noGithub := Analyze(professorName, courseId, lookup, ratingFetch, redditFetch, Failed, checkedAt, savedAt, saveOk).value.response;
            && noRating == a.(avgRating := noRating.avgRating)
            && noReddit == a.(sentimentSummary := None, redditTopThreads := [])
            && noGithub == a.(githubTopRepos := [])
  {
  }

  /** The saved row carries the rating the response reports, the pair it
      was computed for, and the save time; it is fresh for one
      time-to-live. */
  lemma StoredRowMatchesResponse(professorName: string, courseId: string, lookup: Fetch<Option<CacheEntry>>,
                                 ratingFetch: Fetch<Option<real>>, redditFetch: Fetch<seq<string>>,
                                 githubFetch: Fetch<seq<string>>, checkedAt: int, savedAt: int, saveOk: bool)
    requires lookup.Ok? && saveOk
    ensures var a := Analyze(professorName, courseId, lookup, ratingFetch, redditFetch, githubFetch, checkedAt, savedAt, saveOk).value;
            && a.stored.Some?
            && a.stored.value.avgRating == a.response.avgRating
            && a.stored.value.professorName == Some(professorName)
            && a.stored.value.courseId == Some(courseId)
            && a.stored.value.lastUpdated == Some(savedAt)
            && IsCacheFresh(a.stored.value, savedAt)
            && (a.response.sentimentSummary.Some? ==> a.stored.value.sentimentSummary == a.response.sentimentSummary)
  {
  }

  /** The response has no rating exactly when the fetch produced no number
      and there is no cached rating. */
  lemma NoRatingExactly(professorName: string, courseId: string, cached: Option<CacheEntry>,
                        ratingFetch: Fetch<Option<real>>, redditFetch: Fetch<seq<string>>,
                        githubFetch: Fetch<seq<string>>, checkedAt: int, savedAt: int, saveOk: bool)
    ensures Analyze(professorName, courseId, Ok(cached), ratingFetch, redditFetch, githubFetch, checkedAt, savedAt, saveOk)
              .value.response.avgRating.None?
            <==> ratingFetch.ValueOr(None).None? && (cached.None? || cached.value.avgRating.None?)
  {
  }

  /** Analyzing again with every fetch failing, right after a successful
      save, reports the rating just stored. */
  lemma CachedRatingServesLaterFailure(professorName: string, courseId: string, lookup: Fetch<Option<CacheEntry>>,
                                       ratingFetch: Fetch<Option<real>>, redditFetch: Fetch<seq<string>>,
                                       githubFetch: Fetch<seq<string>>, checkedAt: int, savedAt: int,
                                       checkedAt': int, savedAt': int, saveOk': bool)
    requires lookup.Ok?
    ensures var first := Analyze(professorName, courseId, lookup, ratingFetch, redditFetch, githubFetch, checkedAt, savedAt, true).value;
            var second := Analyze(professorName, courseId, Ok(first.stored), Failed, Failed, Failed, checkedAt', savedAt', saveOk');
            second.Ok? && second.value.response.avgRating == first.response.avgRating
  {
  }
}
