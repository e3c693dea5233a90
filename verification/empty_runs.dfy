/**
  Counting consecutive failures: a counter that is reset by every success and
  stops a search at `most` failures in a row stops it at the first place where
  the last `most` positions all failed.
 */
module EmptyRuns {

  /** The `most` positions before h, none of them before start, all fail. */
  ghost predicate RunEndsAt(fails: int -> bool, start: int, most: nat, h: int) {
    start + most <= h && forall k :: h - most <= k < h ==> fails(k)
  }

  ghost predicate NoRunBefore(fails: int -> bool, start: int, most: nat, k: int) {
    forall h :: RunEndsAt(fails, start, most, h) ==> k <= h
  }

  /** `count` is the number of failures in a row just before k, and the search has not had to stop sooner. */
  ghost predicate Counts(fails: int -> bool, start: int, most: nat, k: int, count: int) {
    && start <= k - count && 0 <= count <= most
    && NoRunBefore(fails, start, most, k)
    && (RunEndsAt(fails, start, most, k) <==> count == most)
    && (forall j :: k - count <= j < k ==> fails(j))
    && (k - count > start ==> !fails(k - count - 1))
  }

  lemma CountsOn(fails: int -> bool, start: int, most: nat, k: int, count: int)
    requires Counts(fails, start, most, k, count) && count < most
    ensures NoRunBefore(fails, start, most, k + 1)
    ensures Counts(fails, start, most, k + 1, if fails(k) then count + 1 else 0)
  {
  }
}
