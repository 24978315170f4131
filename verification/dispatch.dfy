/**
 The cache-or-live pattern shared by every table builder: when the
 precomputed results are up to date, ask the cache; use its frame unless the
 lookup raised, returned `None`, or returned an empty frame; otherwise compute
 the table live. The cache's contents are an input: how it was filled is not
 part of this model.
 */
module Dispatch {
  import opened Wrappers
  import opened Currencies

  /** What one cache lookup did: it raised, or it returned a frame that may be `None`. */
  datatype CacheAttempt<R> = Raised | Returned(frame: Option<seq<R>>)

  /** The lookup of the precomputed results: currency, codes and display names to a frame. */
  type Cache<R> = (Currency, seq<string>, seq<string>) -> CacheAttempt<R>

  /** The cache answers: it is up to date, the lookup returned, and the frame is present and not empty. */
  predicate CacheServes<R>(upToDate: bool, a: CacheAttempt<R>) {
    upToDate && a.Returned? && a.frame.Some? && |a.frame.value| > 0
  }

  /**
   The table a builder returns, given freshness, the cache lookup and the
   live table. An empty result is always the live table, and a cached frame
   is used whenever the cache serves.
   */
  function WithFallback<R>(upToDate: bool, a: CacheAttempt<R>, live: seq<R>): (rows: seq<R>)
    ensures rows == live || (upToDate && a == Returned(Some(rows)) && |rows| > 0)
    ensures !upToDate ==> rows == live
    ensures a.Raised? ==> rows == live
    ensures a == Returned(None) ==> rows == live
    ensures a == Returned(Some([])) ==> rows == live
    ensures CacheServes(upToDate, a) ==> rows == a.frame.value
  {
    if CacheServes(upToDate, a) then a.frame.value else live
  }
}
