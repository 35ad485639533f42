/**
 * A URI as `join_uri` uses it: the scheme and authority as text, and the path as the
 * parts of the `PurePosixPath` the URI library keeps it in.
 */
module Uris {
  import opened PurePaths

  datatype Uri = Uri(origin: string, path: seq<string>)

  /**
   * `join_uri(u, PurePosixPath(*items))`: the items become the URI's next path parts; the
   * scheme, the authority and the existing path stay in front.
   */
  function JoinUri(u: Uri, items: seq<string>): (r: Uri)
    ensures r.origin == u.origin
    ensures |r.path| == |u.path| + |items|
    ensures r.path[..|u.path|] == u.path && r.path[|u.path|..] == items
  {
    Uri(u.origin, u.path + items)
  }

  /** `URI(codebase).resolve(".")`: the directory holding the codebase document. */
  function ResolveDot(u: Uri): (r: Uri)
    ensures r.origin == u.origin
    ensures |u.path| > 0 ==> r.path + [u.path[|u.path| - 1]] == u.path
  {
    Uri(u.origin, DropLast(u.path))
  }

  /** Joining nothing changes nothing, and two joins are one join of both item lists. */
  lemma JoinUriLaws(u: Uri, a: seq<string>, b: seq<string>)
    ensures JoinUri(u, []) == u
    ensures JoinUri(JoinUri(u, a), b) == JoinUri(u, a + b)
    ensures JoinUri(u, a).origin == u.origin && JoinUri(u, a).path[..|u.path|] == u.path
  {
    assert u.path + [] == u.path;
    assert u.path + a + b == u.path + (a + b);
    assert (u.path + a)[..|u.path|] == u.path;
  }
}
