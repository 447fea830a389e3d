/** The cached analysis row (CourseCache) and the two cache rules of
    ScraperService: when a cached row counts as fresh, and how a row is
    rewritten after an analysis.

    Instants are whole nanoseconds since the epoch, the resolution of
    java.time.Instant; `Instant.isAfter` is then a strict comparison of
    these numbers. */
module CourseCache {
  import opened Wrappers

  /** One row of the course cache. Every field is nullable in Java. */
  datatype CacheEntry = CacheEntry(
    id: Option<int>,
    professorName: Option<string>,
    courseId: Option<string>,
    avgRating: Option<real>,
    sentimentSummary: Option<string>,
    lastUpdated: Option<int>)

  /** A freshly constructed row: every field null. */
  const NewEntry: CacheEntry := CacheEntry(None, None, None, None, None, None)

  const NanosPerSecond: int := 1_000_000_000

  /** Fourteen days, in nanoseconds. */
  const CacheTtl: int := 14 * 24 * 60 * 60 * NanosPerSecond

  /** isCacheFresh: a row is fresh when it was updated strictly after
      `now` minus the time-to-live; a row never updated is not fresh. */
  function IsCacheFresh(entry: CacheEntry, now: int): (r: bool)
    ensures entry.lastUpdated.None? ==> !r
    ensures entry.lastUpdated.Some? ==> (r <==> now - entry.lastUpdated.value < CacheTtl)
  {
    match entry.lastUpdated
    case None => false
    case Some(updated) => updated > now - CacheTtl
  }

  /** A row updated exactly one time-to-live ago is already stale; one
      updated a nanosecond later is still fresh. */
  lemma FreshnessBoundary(entry: CacheEntry, updated: int)
    requires entry.lastUpdated == Some(updated)
    ensures !IsCacheFresh(entry, updated + CacheTtl)
    ensures IsCacheFresh(entry, updated + CacheTtl - 1)
  {
  }

  /** A row fresh at some instant was fresh at every earlier one. */
  lemma FreshnessIsMonotone(entry: CacheEntry, earlier: int, later: int)
    requires earlier <= later && IsCacheFresh(entry, later)
    ensures IsCacheFresh(entry, earlier)
  {
  }

  /** persistCache's rewrite of a row before it is saved: the cached row if
      there is one, else a new row; the names are overwritten, the rating
      and summary only when the new value is not null, and the update time
      is set to `now`. */
  function PersistCache(cached: Option<CacheEntry>, professorName: string, courseId: string,
                        avgRating: Option<real>, sentimentSummary: Option<string>, now: int): (r: CacheEntry)
    ensures r.id == (if cached.Some? then cached.value.id else None)
    ensures r.professorName == Some(professorName) && r.courseId == Some(courseId)
    ensures r.lastUpdated == Some(now)
    ensures avgRating.Some? ==> r.avgRating == avgRating
    ensures avgRating.None? ==> r.avgRating == (if cached.Some? then cached.value.avgRating else None)
    ensures sentimentSummary.Some? ==> r.sentimentSummary == sentimentSummary
    ensures sentimentSummary.None? ==> r.sentimentSummary == (if cached.Some? then cached.value.sentimentSummary else None)
  {
    var entry := cached.ValueOr(NewEntry);
    entry.(
      professorName := Some(professorName),
      courseId := Some(courseId),
      avgRating := avgRating.Or(entry.avgRating),
      sentimentSummary := sentimentSummary.Or(entry.sentimentSummary),
      lastUpdated := Some(now))
  }

  /** Persisting never erases: a rating or summary the cached row held is
      still present afterwards. */
  lemma PersistNeverErases(cached: CacheEntry, professorName: string, courseId: string,
                           avgRating: Option<real>, sentimentSummary: Option<string>, now: int)
    ensures cached.avgRating.Some? ==>
      PersistCache(Some(cached), professorName, courseId, avgRating, sentimentSummary, now).avgRating.Some?
    ensures cached.sentimentSummary.Some? ==>
      PersistCache(Some(cached), professorName, courseId, avgRating, sentimentSummary, now).sentimentSummary.Some?
  {
  }

  /** Persisting the same analysis twice gives the same row as once. */
  lemma PersistIsIdempotent(cached: Option<CacheEntry>, professorName: string, courseId: string,
                            avgRating: Option<real>, sentimentSummary: Option<string>, now: int)
    ensures var once := PersistCache(cached, professorName, courseId, avgRating, sentimentSummary, now);
            PersistCache(Some(once), professorName, courseId, avgRating, sentimentSummary, now) == once
  {
  }

  /** A row just persisted is fresh for exactly one time-to-live. */
  lemma PersistedIsFresh(cached: Option<CacheEntry>, professorName: string, courseId: string,
                         avgRating: Option<real>, sentimentSummary: Option<string>, savedAt: int, now: int)
    ensures IsCacheFresh(PersistCache(cached, professorName, courseId, avgRating, sentimentSummary, savedAt), now)
            <==> now < savedAt + CacheTtl
  {
  }
}
