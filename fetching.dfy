/**
 * The skip rule of `download_file_if_not_present_size` and the overwrite of
 * `download_file`, on a filesystem held as a map from paths to file contents and a
 * network held as a map from URIs to the body the server returns.
 */
module Fetching {
  import opened Wrappers
  import opened PurePaths
  import opened Uris
  import opened Manifests

  /** A file's contents: its length in bytes and what parsing it as a manifest yields. */
  datatype Blob = Blob(size: nat, document: Option<Manifest>)

  /** What `open(mode="wb")` leaves behind before anything is written. */
  const EmptyFile := Blob(0, None)

  type FileSystem = map<Path, Blob>

  /** The body each URI answers with; a URI outside the map makes `urlopen` raise. */
  type Network = map<Uri, Blob>

  /** One call of `download_file_if_not_present_size(remote, local, size)`. */
  datatype Request = Request(remote: Uri, local: Path, size: int)

  datatype Outcome = Skipped | Fetched | Failed

  /**
   * The skip test: the local file exists and has exactly the declared size. A negative
   * declared size never passes it, since no file is shorter than empty.
   */
  predicate Present(fs: FileSystem, local: Path, size: int)
    ensures Present(fs, local, size) ==> local in fs && 0 <= size
  {
    local in fs && fs[local].size == size
  }

  /**
   * `download_file`: the output is opened for writing (truncated) first, then filled with
   * the response body; if the transfer fails the truncated file remains.
   */
  function Download(fs: FileSystem, net: Network, remote: Uri, local: Path): (r: (FileSystem, Outcome))
    ensures r.1 != Skipped
    ensures r.1 == Fetched <==> remote in net
    ensures local in r.0 && r.0[local] == (if remote in net then net[remote] else EmptyFile)
  {
    var truncated := fs[local := EmptyFile];
    if remote in net then (truncated[local := net[remote]], Fetched) else (truncated, Failed)
  }

  /**
   * `download_file_if_not_present_size`: skipped exactly when the file is present with the
   * declared size, leaving the filesystem as it was; otherwise downloaded, which writes
   * the local path (FetchFrame: and nothing else).
   */
  function Fetch(fs: FileSystem, net: Network, req: Request): (r: (FileSystem, Outcome))
    ensures r.1 == Skipped <==> Present(fs, req.local, req.size)
    ensures r.1 == Skipped ==> r.0 == fs
    ensures r.1 == Fetched <==> !Present(fs, req.local, req.size) && req.remote in net
    ensures r.1 != Skipped ==> req.local in r.0 && r.0[req.local] == (if r.1 == Fetched then net[req.remote] else EmptyFile)
  {
    if Present(fs, req.local, req.size) then (fs, Skipped)
    else Download(fs, net, req.remote, req.local)
  }

  /** A fetch changes no path but its own local path: every other one keeps its contents or its absence. */
  lemma FetchFrame(fs: FileSystem, net: Network, req: Request, p: Path)
    requires p != req.local
    ensures var fs1 := Fetch(fs, net, req).0;
            (p in fs1 <==> p in fs) && (p in fs ==> fs1[p] == fs[p])
  {
  }

  /** After a fetch that wrote the declared number of bytes, the same call again skips. */
  lemma FetchIdempotent(fs: FileSystem, net: Network, req: Request)
    requires req.remote in net && net[req.remote].size == req.size
    ensures var (fs1, _) := Fetch(fs, net, req); Fetch(fs1, net, req) == (fs1, Skipped)
  {
  }

  /** A present file of another size is always fetched again; afterwards it has the size the server sent. */
  lemma RefetchOnMismatch(fs: FileSystem, net: Network, req: Request)
    requires req.local in fs && fs[req.local].size != req.size
    ensures Fetch(fs, net, req).1 != Skipped
    ensures req.remote in net ==> Fetch(fs, net, req).0[req.local].size == net[req.remote].size
    ensures req.remote in net && net[req.remote].size == req.size ==> Present(Fetch(fs, net, req).0, req.local, req.size)
  {
  }
}
