/**
 * The script's imperative layer: the process's filesystem as a mutable field, the
 * network as a fixed oracle, and a log of every `download_file_if_not_present_size`
 * call. Each method performs its loop step by step and is proved to end in exactly the
 * state the matching function of module Planner describes.
 */
module Clickout {
  import opened Wrappers
  import opened Seqs
  import opened PurePaths
  import opened Uris
  import opened Manifests
  import opened Assemblies
  import opened Fetching
  import opened Planner

  class Downloader {
    var files: FileSystem
    var log: seq<Attempt>
    const net: Network

    constructor (files0: FileSystem, net0: Network)
      ensures files == files0 && net == net0 && log == []
    {
      files := files0;
      net := net0;
      log := [];
    }

    /** `download_file`: truncate the output, then write the response body if there is one. */
    method DownloadFile(remote: Uri, local: Path) returns (outcome: Outcome)
      modifies this
      ensures (files, outcome) == Download(old(files), net, remote, local)
      ensures log == old(log)
    {
      files := files[local := EmptyFile];
      if remote in net {
        files := files[local := net[remote]];
        outcome := Fetched;
      } else {
        outcome := Failed;
      }
    }

    /** `download_file_if_not_present_size`, logging the call and its outcome. */
    method DownloadIfNotPresentSize(remote: Uri, local: Path, size: int) returns (outcome: Outcome)
      modifies this
      ensures (files, outcome) == Fetch(old(files), net, Request(remote, local, size))
      ensures log == old(log) + [Attempt(Request(remote, local, size), outcome)]
    {
      if local in files && files[local].size == size {
        outcome := Skipped;
      } else {
        outcome := DownloadFile(remote, local);
      }
      log := log + [Attempt(Request(remote, local, size), outcome)];
    }

    /** Issues one step of a run that has not aborted. */
    method Issue(step: Result<Request, Error>) returns (status: Status)
      modifies this
      ensures Run(files, log, status) == Advance(Run(old(files), old(log), Completed), net, step)
    {
      match step
      case Err(x) => status := Aborted(x);
      case Ok(req) =>
        var outcome := DownloadIfNotPresentSize(req.remote, req.local, req.size);
        status := if outcome == Failed then Aborted(TransferFailed(req.remote)) else Completed;
    }

    /** `download_manifest`: the install dependencies, then the files, one fetch each. */
    method DownloadManifest(manifest: Path, remoteBase: Uri, destination: Path) returns (status: Status)
      modifies this
      ensures Run(files, log, status) == Shift(old(log), ExecManifest(old(files), net, manifest, remoteBase, destination))
    {
      if manifest !in files || files[manifest].document.None? {
        return Aborted(Unreadable(manifest));
      }
      var root := files[manifest].document.value;
      ExecManifestSteps(files, net, manifest, remoteBase, destination);
      ghost var fs0 := files;
      ghost var log0 := log;
      status := DownloadDependencies(root, remoteBase, destination);
      if status.Aborted? {
        return;
      }
      status := DownloadFiles(root, remoteBase, destination, fs0, log0);
    }

    /** The first loop of `download_manifest`: each install dependency, read as indirect. */
    method DownloadDependencies(root: Manifest, remoteBase: Uri, destination: Path) returns (status: Status)
      modifies this
      ensures var steps := ManifestSteps(root, remoteBase, destination);
              if status == Completed
              then Run(files, log, status) == Shift(old(log), Exec(old(files), net, steps[..|Installs(root.entries)|]))
              else Run(files, log, status) == Shift(old(log), Exec(old(files), net, steps))
    {
      ghost var fs0 := files;
      ghost var log0 := log;
      ghost var steps := ManifestSteps(root, remoteBase, destination);
      var deps := Installs(root.entries);
      for i := 0 to |deps|
        invariant Run(files, log, Completed) == Shift(log0, Exec(fs0, net, steps[..i]))
      {
        status := IssueNext(DependencyStep(deps[i], remoteBase, destination, false), fs0, log0, steps, i);
        if status.Aborted? {
          return;
        }
      }
      status := Completed;
    }

    /** The second loop of `download_manifest`: each file, after all the dependencies. */
    method DownloadFiles(root: Manifest, remoteBase: Uri, destination: Path, ghost fs0: FileSystem, ghost log0: seq<Attempt>)
        returns (status: Status)
      requires Run(files, log, Completed)
               == Shift(log0, Exec(fs0, net, ManifestSteps(root, remoteBase, destination)[..|Installs(root.entries)|]))
      modifies this
      ensures Run(files, log, status) == Shift(log0, Exec(fs0, net, ManifestSteps(root, remoteBase, destination)))
    {
      ghost var steps := ManifestSteps(root, remoteBase, destination);
      var deps := Installs(root.entries);
      var entries := Files(root.entries);
      for k := |deps| to |deps| + |entries|
        invariant Run(files, log, Completed) == Shift(log0, Exec(fs0, net, steps[..k]))
      {
        status := IssueNext(FileStep(entries[k - |deps|], remoteBase, destination), fs0, log0, steps, k);
        if status.Aborted? {
          return;
        }
      }
      assert steps[..|deps| + |entries|] == steps;
      status := Completed;
    }

    /**
     * Issues the i-th of a sequence of steps whose first i were issued from `fs0` with
     * `log0` in front; on an abort the rest of the sequence would change nothing.
     */
    method IssueNext(step: Result<Request, Error>, ghost fs0: FileSystem, ghost log0: seq<Attempt>,
                     ghost steps: seq<Result<Request, Error>>, i: nat) returns (status: Status)
      requires i < |steps| && steps[i] == step
      requires Run(files, log, Completed) == Shift(log0, Exec(fs0, net, steps[..i]))
      modifies this
      ensures status == Completed ==> Run(files, log, Completed) == Shift(log0, Exec(fs0, net, steps[..i + 1]))
      ensures status.Aborted? ==> Run(files, log, status) == Shift(log0, Exec(fs0, net, steps))
    {
      status := Issue(step);
      ExecExtend(fs0, net, steps, i, log0);
      if status.Aborted? {
        ExecAbortedStable(fs0, net, steps, i + 1);
      }
    }

    /**
     * `download_application`: the deployment base first, then each top-level install
     * dependency fetched by the direct rule and processed as a nested manifest.
     */
    method DownloadApplication(app: Path, destination: Path) returns (status: Status)
      modifies this
      ensures Run(files, log, status) == Shift(old(log), RunApplication(old(files), net, app, destination))
    {
      if app !in files || files[app].document.None? {
        return Aborted(Unreadable(app));
      }
      var root := files[app].document.value;
      if root.deploymentCodebase.None? {
        return Aborted(NoDeploymentProvider);
      }
      var deploymentCodebase := ResolveDot(root.deploymentCodebase.value);
      ghost var fs0 := files;
      ghost var log0 := log;
      var deps := Installs(root.entries);
      for i := 0 to |deps|
        invariant Run(files, log, Completed) == Shift(log0, AppSteps(fs0, net, deps[..i], deploymentCodebase, destination))
      {
        AppStepsExtend(fs0, net, deps, deploymentCodebase, destination, i, log0);
        ghost var before := Run(files, log, Completed);
        var da := Read(deps[i], true);
        if da.Err? {
          AppStepsAbortedStable(fs0, net, deps, deploymentCodebase, destination, i + 1);
          return Aborted(da.error);
        }
        var remote := RemotePath(da.value, deploymentCodebase);
        var local := LocalPath(da.value, destination);
        TopLevelUnfold(before.fs, net, deps[i], deploymentCodebase, destination);
        var outcome := DownloadIfNotPresentSize(remote, local, da.value.size);
        ghost var first := Run(files, [Attempt(Request(remote, local, da.value.size), outcome)], Completed);
        ghost var logFetched := log;
        assert log == before.log + first.log;
        if outcome == Failed {
          AppStepsAbortedStable(fs0, net, deps, deploymentCodebase, destination, i + 1);
          return Aborted(TransferFailed(remote));
        }
        status := DownloadManifest(local, RemoteBasePath(da.value, deploymentCodebase),
                                   Parent(LocalPath(da.value, destination)));
        ghost var nested := ExecManifest(first.fs, net, local, RemoteBasePath(da.value, deploymentCodebase), Parent(local));
        assert files == nested.fs;
        assert log == logFetched + nested.log;
        AppendAssoc(before.log, first.log, nested.log);
        assert log == before.log + (first.log + nested.log);
        if status.Aborted? {
          AppStepsAbortedStable(fs0, net, deps, deploymentCodebase, destination, i + 1);
          return;
        }
      }
      assert deps[..|deps|] == deps;
      status := Completed;
    }
  }
}
