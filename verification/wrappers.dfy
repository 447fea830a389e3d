/** Optional values and the outcome of one outbound fetch.

- Option<T> stands for a Java reference that may be null.
- Fetch<T> is what a fetcher produced: Ok(value) when its call returned,
  Failed when it threw (network error, timeout, non-success status, a
  number that did not parse) and the exception was swallowed.
 */
module Wrappers {

  datatype Option<+T> = None | Some(value: T) {

    /** Java's `x != null ? x : fallback`. */
    function ValueOr(fallback: T): T {
      if Some? then value else fallback
    }

    /** Keeps `other` unless this one is present: "a non-null new value wins". */
    function Or(other: Option<T>): (r: Option<T>)
      ensures Some? ==> r == this
      ensures None? ==> r == other
    {
      if Some? then this else other
    }
  }

  datatype Fetch<+T> = Ok(value: T) | Failed {

    /** What the caller keeps: the fetched value, or `fallback` when the
        fetch threw. */
    function ValueOr(fallback: T): T {
      if Ok? then value else fallback
    }
  }
}
