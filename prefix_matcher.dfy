/** `PathPrefixMatcher`: the recursive-delete prefixes collected by `rmdir`. */
module Prefixes {
  import opened JavaStrings
  import opened Paths

  /** `path` lies under one of `prefixes`. */
  predicate MatchesAny(prefixes: seq<string>, path: string)
  {
    exists i :: 0 <= i < |prefixes| && StartsWith(path, prefixes[i])
  }

  class PathPrefixMatcher {
    var prefixes: seq<string>

    /** A new matcher matches nothing. */
    constructor ()
      ensures prefixes == []
    {
      prefixes := [];
    }

    /** Stores the normalised prefix at the end of the list. */
    method Add(prefix: string)
      modifies this
      ensures prefixes == old(prefixes) + [Normalize(prefix)]
    {
      prefixes := prefixes + [Normalize(prefix)];
    }

    /** Scans the prefixes in order and stops at the first that `path`
        starts with. */
    method Matches(path: string) returns (found: bool)
      ensures found <==> MatchesAny(prefixes, path)
    {
      for i := 0 to |prefixes|
        invariant forall j :: 0 <= j < i ==> !StartsWith(path, prefixes[j])
      {
        if StartsWith(path, prefixes[i]) {
          return true;
        }
      }
      return false;
    }
  }
}
