/**
 * The record types of ShortRouteOptimizerAPI.Models and the outcome of a call to the
 * shortest-path service (a returned value or a thrown exception with its message).
 */
module Models {

  /** int.MaxValue: the distance the search reports for a destination it never reached. */
  const INT_MAX_VALUE: nat := 0x7FFF_FFFF

  /** The node names in traversal order and the total distance. */
  datatype ShortestPathData = ShortestPathData(nodeNames: seq<string>, distance: int)

  /**
   * The cache-key template and the sliding-expiration window in minutes. A window that is not
   * positive (0 is what a missing setting binds to) makes every successful miss fail when the
   * cache entry options are built.
   */
  datatype CacheSettings = CacheSettings(shortestPathCacheKey: string, cacheDurationMinutes: int)

  /** What a call of GetShortestPathFromNodes does: return a value or throw an exception. */
  datatype ServiceOutcome = Computed(data: ShortestPathData) | Threw(message: string)

  /** The message of the KeyNotFoundException thrown by the Dictionary indexer for a missing key. */
  function KeyNotFoundMessage(key: string): string
  {
    "The given key '" + key + "' was not present in the dictionary."
  }
}
