/**
 * What `download_manifest` and `download_application` do, as functions of the
 * filesystem and the network: the requests each manifest entry turns into, in the
 * order the script issues them, and the run that issuing them produces. The class in
 * module Clickout performs the same runs step by step and is proved against these.
 */
module Planner {
  import opened Wrappers
  import opened Seqs
  import opened PurePaths
  import opened Percent
  import opened Uris
  import opened Manifests
  import opened Assemblies
  import opened Fetching

  datatype Attempt = Attempt(request: Request, outcome: Outcome)

  datatype Status = Completed | Aborted(error: Error)

  /** The filesystem after a run, the fetch attempts it made in order, and how it ended. */
  datatype Run = Run(fs: FileSystem, log: seq<Attempt>, status: Status)

  // ---------------------------------------------------------------------------------
  // Requests for single entries
  // ---------------------------------------------------------------------------------

  /** `PurePosixPath(PureWindowsPath(name).as_posix())`: the name's parts as a Windows path. */
  function FileName(raw: string): (r: seq<string>)
    ensures r == Parts(raw, WindowsSeparators)
  {
    Parts(AsPosix(raw), PosixSeparators)
  }

  /**
   * `join_uri(remote_codebase, PurePosixPath(str(name) + ".deploy"))`: not percent-encoded;
   * it lies under the base and adds only valid posix parts.
   */
  function FileRemote(raw: string, base: Uri): (r: Uri)
    ensures r.origin == base.origin && IsPrefix(base.path, r.path)
    ensures forall i :: |base.path| <= i < |r.path| ==> IsPosixPart(r.path[i])
  {
    var items := Parts(Render(FileName(raw)) + DeploySuffix, PosixSeparators);
    assert forall i :: |base.path| <= i < |base.path| + |items| ==> (base.path + items)[i] == items[i - |base.path|];
    JoinUri(base, items)
  }

  /** `destination.joinpath(name)`: the destination followed by the name's Windows parts. */
  function FileLocal(raw: string, destination: Path): (r: Path)
    ensures IsPrefix(destination, r) && r[|destination|..] == Parts(raw, WindowsSeparators)
  {
    var ps := FileName(raw);
    PrefixOfAppend(destination, ps);
    assert (destination + ps)[|destination|..] == ps;
    destination + ps
  }

  /**
   * A dependency element: `Read`, then its remote path, local path and declared size. It
   * fails exactly as `Read` fails (DependencyUnder: its request lies under the base and
   * the destination).
   */
  function DependencyStep(e: AssemblyElem, base: Uri, destination: Path, direct: bool): (r: Result<Request, Error>)
    ensures r.Ok? <==> Read(e, direct).Ok?
    ensures r.Err? ==> r.error == Read(e, direct).error
    ensures r.Ok? ==> r.value.size == Read(e, direct).value.size
  {
    match Read(e, direct)
    case Err(x) => Err(x)
    case Ok(a) => Ok(Request(RemotePath(a, base), LocalPath(a, destination), a.size))
  }

  /**
   * A file element: the `name` attribute is read first, the `size` last (FileUnder: a
   * formed request lies under the base and the destination).
   */
  function FileStep(f: FileElem, base: Uri, destination: Path): (r: Result<Request, Error>)
    ensures r.Ok? <==> f.name.Some? && f.size.Size?
    ensures r.Ok? ==> r.value.size == f.size.n
  {
    match f.name
    case None => Err(MissingAttribute("name"))
    case Some(raw) =>
      match f.size
      case NoSize => Err(MissingAttribute("size"))
      case BadSize => Err(NotANumber)
      case Size(n) => Ok(Request(FileRemote(raw, base), FileLocal(raw, destination), n))
  }

  /** A file element's name is checked before its size, and a size that is not a number is reported as such. */
  lemma FileStepErrors(f: FileElem, base: Uri, destination: Path)
    ensures f.name.None? ==> FileStep(f, base, destination) == Err(MissingAttribute("name"))
    ensures f.name.Some? && f.size.NoSize? ==> FileStep(f, base, destination) == Err(MissingAttribute("size"))
    ensures f.name.Some? && f.size.BadSize? ==> FileStep(f, base, destination) == Err(NotANumber)
  {
  }

  /**
   * The plain-file rule: the local path is the destination joined with the converted name;
   * the remote is the base joined with the same parts, ".deploy" on the last, unencoded.
   * It differs from an indirect dependency's remote only in that the dependency quotes.
   */
  lemma PlainFileRule(raw: string, base: Uri, destination: Path, size: SizeAttr)
    requires size.Size?
    ensures var ps := Parts(raw, WindowsSeparators);
            var suffixed := if ps == [] then ["..deploy"] else ps[..|ps| - 1] + [ps[|ps| - 1] + DeploySuffix];
            FileLocal(raw, destination) == destination + ps
            && FileRemote(raw, base) == Uri(base.origin, base.path + suffixed)
            && RemotePath(Read(AssemblyElem(Some("install"), Some(raw), size), false).value, base)
               == Uri(base.origin, base.path + QuoteAll(suffixed))
  {
    var ps := Parts(raw, WindowsSeparators);
    WindowsPartsArePosix(raw);
    DeploySuffixUnreserved();
    DotDeployUnreserved();
    SuffixParts(ps, DeploySuffix);
    var e := AssemblyElem(Some("install"), Some(raw), size);
    IndirectComponents(e);
    if ps != [] {
      var n := |ps|;
      var suffixed := ps[..n - 1] + [ps[n - 1] + DeploySuffix];
      QuoteAppend(ps[n - 1], DeploySuffix);
      assert QuoteAll(suffixed) == QuoteAll(ps[..n - 1]) + [Quote(ps[n - 1]) + DeploySuffix];
    }
  }

  // ---------------------------------------------------------------------------------
  // Running a sequence of steps
  // ---------------------------------------------------------------------------------

  /**
   * One step after a run so far: nothing once the run has aborted; a step that could not
   * be formed aborts it; a formed request is fetched and logged, and a failed transfer
   * aborts the run after its attempt.
   */
  function Advance(prev: Run, net: Network, step: Result<Request, Error>): (r: Run)
    ensures prev.status.Aborted? ==> r == prev
    ensures r.status == Completed <==> prev.status == Completed && step.Ok? && Fetch(prev.fs, net, step.value).1 != Failed
  {
    if prev.status.Aborted? then prev
    else
      match step
      case Err(x) => prev.(status := Aborted(x))
      case Ok(req) =>
        var (fs', outcome) := Fetch(prev.fs, net, req);
        Run(fs', prev.log + [Attempt(req, outcome)],
            if outcome == Failed then Aborted(TransferFailed(req.remote)) else Completed)
  }

  /** The same run with earlier attempts in front of its log. */
  function Shift(earlier: seq<Attempt>, r: Run): Run
  {
    r.(log := earlier + r.log)
  }

  /** Issues the steps in order; a run completes only when every step could be formed. */
  function Exec(fs: FileSystem, net: Network, steps: seq<Result<Request, Error>>): (r: Run)
    ensures r.status == Completed ==> forall i :: 0 <= i < |steps| ==> steps[i].Ok?
    decreases |steps|
  {
    if |steps| == 0 then Run(fs, [], Completed)
    else Advance(Exec(fs, net, steps[..|steps| - 1]), net, steps[|steps| - 1])
  }

  /** One more step of a completed prefix, with earlier attempts in front of the log. */
  lemma ExecExtend(fs: FileSystem, net: Network, steps: seq<Result<Request, Error>>, i: nat, earlier: seq<Attempt>)
    requires i < |steps|
    requires Exec(fs, net, steps[..i]).status == Completed
    ensures Shift(earlier, Exec(fs, net, steps[..i + 1]))
            == Advance(Shift(earlier, Exec(fs, net, steps[..i])), net, steps[i])
  {
    PrefixStep(steps, i);
    var prev := Exec(fs, net, steps[..i]);
    match steps[i]
    case Err(x) =>
    case Ok(req) =>
      AppendAssoc(earlier, prev.log, [Attempt(req, Fetch(prev.fs, net, req).1)]);
  }

  /** Once a prefix of the steps has aborted, the later steps change nothing. */
  lemma {:induction false} ExecAbortedStable(fs: FileSystem, net: Network, steps: seq<Result<Request, Error>>, k: nat)
    requires k <= |steps|
    requires Exec(fs, net, steps[..k]).status.Aborted?
    ensures Exec(fs, net, steps) == Exec(fs, net, steps[..k])
    decreases |steps|
  {
    if k < |steps| {
      var init := steps[..|steps| - 1];
      assert init[..k] == steps[..k];
      ExecAbortedStable(fs, net, init, k);
    } else {
      assert steps[..k] == steps;
    }
  }

  /**
   * The i-th attempt is the request of the i-th step, so attempts follow the steps' order
   * and there are never more attempts than steps; a completed run attempted every step and
   * no transfer in it failed.
   */
  lemma {:induction false} ExecFollowsSteps(fs: FileSystem, net: Network, steps: seq<Result<Request, Error>>)
    ensures var r := Exec(fs, net, steps);
            |r.log| <= |steps|
            && (forall i :: 0 <= i < |r.log| ==> steps[i] == Ok(r.log[i].request))
            && (r.status == Completed ==> |r.log| == |steps| && forall i :: 0 <= i < |r.log| ==> r.log[i].outcome != Failed)
    decreases |steps|
  {
    if |steps| > 0 {
      var init := steps[..|steps| - 1];
      ExecFollowsSteps(fs, net, init);
    }
  }

  lemma ExecLogAt(fs: FileSystem, net: Network, steps: seq<Result<Request, Error>>, i: nat)
    requires i < |Exec(fs, net, steps).log|
    ensures i < |steps| && steps[i] == Ok(Exec(fs, net, steps).log[i].request)
  {
    ExecFollowsSteps(fs, net, steps);
  }

  /** A path that no step writes keeps its contents (or its absence). */
  lemma {:induction false} ExecFrame(fs: FileSystem, net: Network, steps: seq<Result<Request, Error>>, p: Path)
    requires forall i :: 0 <= i < |steps| && steps[i].Ok? ==> steps[i].value.local != p
    ensures var r := Exec(fs, net, steps);
            (p in r.fs <==> p in fs) && (p in fs ==> r.fs[p] == fs[p])
    decreases |steps|
  {
    if |steps| > 0 {
      var prev := Exec(fs, net, steps[..|steps| - 1]);
      ExecFrame(fs, net, steps[..|steps| - 1], p);
      if prev.status == Completed && steps[|steps| - 1].Ok? {
        FetchFrame(prev.fs, net, steps[|steps| - 1].value, p);
      }
    }
  }

  // ---------------------------------------------------------------------------------
  // download_manifest
  // ---------------------------------------------------------------------------------

  /**
   * The requests of one manifest: every install dependency in document order, read as
   * indirect, then every file in document order.
   */
  function ManifestSteps(m: Manifest, base: Uri, destination: Path): (r: seq<Result<Request, Error>>)
    ensures var deps := Installs(m.entries);
            var files := Files(m.entries);
            |r| == |deps| + |files|
            && (forall i :: 0 <= i < |deps| ==> r[i] == DependencyStep(deps[i], base, destination, false))
            && (forall k :: |deps| <= k < |r| ==> r[k] == FileStep(files[k - |deps|], base, destination))
  {
    var deps := DependencySteps(Installs(m.entries), base, destination);
    var files := FileSteps(Files(m.entries), base, destination);
    AppendIndex(deps, files);
    deps + files
  }

  function DependencySteps(deps: seq<AssemblyElem>, base: Uri, destination: Path): (r: seq<Result<Request, Error>>)
    ensures |r| == |deps| && forall i :: 0 <= i < |deps| ==> r[i] == DependencyStep(deps[i], base, destination, false)
  {
    seq(|deps|, i requires 0 <= i < |deps| => DependencyStep(deps[i], base, destination, false))
  }

  function FileSteps(files: seq<FileElem>, base: Uri, destination: Path): (r: seq<Result<Request, Error>>)
    ensures |r| == |files| && forall j :: 0 <= j < |files| ==> r[j] == FileStep(files[j], base, destination)
  {
    seq(|files|, j requires 0 <= j < |files| => FileStep(files[j], base, destination))
  }

  /**
   * `download_manifest(manifest, base, destination)`: parse the local file, then run its
   * steps. Nothing fetched here is opened as a manifest: the steps depend on this one
   * document only.
   */
  function ExecManifest(fs: FileSystem, net: Network, manifest: Path, base: Uri, destination: Path): (r: Run)
    ensures (manifest !in fs || fs[manifest].document.None?) ==> r == Run(fs, [], Aborted(Unreadable(manifest)))
  {
    if manifest !in fs || fs[manifest].document.None? then Run(fs, [], Aborted(Unreadable(manifest)))
    else Exec(fs, net, ManifestSteps(fs[manifest].document.value, base, destination))
  }

  lemma ExecManifestSteps(fs: FileSystem, net: Network, manifest: Path, base: Uri, destination: Path)
    requires manifest in fs && fs[manifest].document.Some?
    ensures ExecManifest(fs, net, manifest, base, destination)
            == Exec(fs, net, ManifestSteps(fs[manifest].document.value, base, destination))
  {
  }

  /**
   * Ordering within one manifest: the attempts are the install dependencies' requests in
   * document order, then the files' requests in document order; at most one attempt per
   * such entry (the manifest level does not descend), all of them when the run completes.
   */
  lemma ManifestOrder(fs: FileSystem, net: Network, m: Manifest, base: Uri, destination: Path)
    ensures var deps := Installs(m.entries);
            var files := Files(m.entries);
            var r := Exec(fs, net, ManifestSteps(m, base, destination));
            |r.log| <= |deps| + |files|
            && (forall i :: 0 <= i < |deps| && i < |r.log| ==> DependencyStep(deps[i], base, destination, false) == Ok(r.log[i].request))
            && (forall k :: |deps| <= k < |deps| + |files| && k < |r.log| ==> FileStep(files[k - |deps|], base, destination) == Ok(r.log[k].request))
            && (r.status == Completed ==> |r.log| == |deps| + |files|)
  {
    var steps := ManifestSteps(m, base, destination);
    var r := Exec(fs, net, steps);
    var deps := Installs(m.entries);
    ExecFollowsSteps(fs, net, steps);
    forall i | 0 <= i < |deps| && i < |r.log|
      ensures DependencyStep(deps[i], base, destination, false) == Ok(r.log[i].request)
    {
      ExecLogAt(fs, net, steps, i);
    }
    forall k | |deps| <= k < |deps| + |Files(m.entries)| && k < |r.log|
      ensures FileStep(Files(m.entries)[k - |deps|], base, destination) == Ok(r.log[k].request)
    {
      ExecLogAt(fs, net, steps, k);
    }
  }

  /** A manifest with no install dependency and no file makes no attempt and completes. */
  lemma EmptyManifest(fs: FileSystem, net: Network, manifest: Path, base: Uri, destination: Path)
    requires manifest in fs && fs[manifest].document.Some?
    requires var m := fs[manifest].document.value; Installs(m.entries) == [] && Files(m.entries) == []
    ensures ExecManifest(fs, net, manifest, base, destination) == Run(fs, [], Completed)
  {
  }

  /** A request that writes under `destination` and reads from under `base`. */
  predicate Under(q: Request, base: Uri, destination: Path)
  {
    IsPrefix(destination, q.local) && q.remote.origin == base.origin && IsPrefix(base.path, q.remote.path)
  }

  lemma DependencyUnder(e: AssemblyElem, base: Uri, destination: Path, direct: bool)
    requires DependencyStep(e, base, destination, direct).Ok?
    ensures Under(DependencyStep(e, base, destination, direct).value, base, destination)
  {
    PrefixOfAppend(base.path, Components(Read(e, direct).value));
  }

  lemma FileStepValue(f: FileElem, base: Uri, destination: Path)
    requires FileStep(f, base, destination).Ok?
    ensures FileStep(f, base, destination).value
            == Request(FileRemote(f.name.value, base), FileLocal(f.name.value, destination), f.size.n)
  {
  }

  lemma FileUnder(f: FileElem, base: Uri, destination: Path)
    requires FileStep(f, base, destination).Ok?
    ensures Under(FileStep(f, base, destination).value, base, destination)
  {
    FileStepValue(f, base, destination);
    var raw := f.name.value;
    assert IsPrefix(destination, FileLocal(raw, destination));
    assert IsPrefix(base.path, FileRemote(raw, base).path);
  }

  lemma DependencyStepUnder(m: Manifest, base: Uri, destination: Path, k: nat)
    requires k < |Installs(m.entries)|
    requires ManifestSteps(m, base, destination)[k].Ok?
    ensures Under(ManifestSteps(m, base, destination)[k].value, base, destination)
  {
    var e := Installs(m.entries)[k];
    assert ManifestSteps(m, base, destination)[k] == DependencyStep(e, base, destination, false);
    DependencyUnder(e, base, destination, false);
  }

  lemma FileStepUnder(m: Manifest, base: Uri, destination: Path, k: nat)
    requires |Installs(m.entries)| <= k < |ManifestSteps(m, base, destination)|
    requires ManifestSteps(m, base, destination)[k].Ok?
    ensures Under(ManifestSteps(m, base, destination)[k].value, base, destination)
  {
    var f := Files(m.entries)[k - |Installs(m.entries)|];
    assert ManifestSteps(m, base, destination)[k] == FileStep(f, base, destination);
    FileUnder(f, base, destination);
  }

  /** Every request a manifest's steps form writes under its destination and reads from under its base. */
  lemma StepUnder(m: Manifest, base: Uri, destination: Path, k: nat)
    requires k < |ManifestSteps(m, base, destination)|
    requires ManifestSteps(m, base, destination)[k].Ok?
    ensures Under(ManifestSteps(m, base, destination)[k].value, base, destination)
  {
    if k < |Installs(m.entries)| {
      DependencyStepUnder(m, base, destination, k);
    } else {
      FileStepUnder(m, base, destination, k);
    }
  }

  /**
   * Every file one manifest fetches lands under its destination and comes from under its
   * remote base.
   */
  lemma ManifestPlacement(fs: FileSystem, net: Network, manifest: Path, base: Uri, destination: Path)
    ensures var r := ExecManifest(fs, net, manifest, base, destination);
            forall i :: 0 <= i < |r.log| ==> Under(r.log[i].request, base, destination)
  {
    if manifest in fs && fs[manifest].document.Some? {
      var m := fs[manifest].document.value;
      var steps := ManifestSteps(m, base, destination);
      var r := Exec(fs, net, steps);
      ExecFollowsSteps(fs, net, steps);
      forall i | 0 <= i < |r.log| ensures Under(r.log[i].request, base, destination) {
        StepUnder(m, base, destination, i);
      }
    }
  }

  // ---------------------------------------------------------------------------------
  // download_application
  // ---------------------------------------------------------------------------------

  /**
   * One top-level install dependency: read as direct, fetched, then its local file is
   * processed as a manifest whose base is the dependency's remote base and whose
   * destination is the directory the file was written to.
   */
  function TopLevel(fs: FileSystem, net: Network, e: AssemblyElem, base: Uri, destination: Path): (r: Run)
    ensures Read(e, true).Err? ==> r == Run(fs, [], Aborted(Read(e, true).error))
    ensures Read(e, true).Ok? ==> |r.log| >= 1
  {
    match Read(e, true)
    case Err(x) => Run(fs, [], Aborted(x))
    case Ok(a) =>
      var req := Request(RemotePath(a, base), LocalPath(a, destination), a.size);
      var (fs1, outcome) := Fetch(fs, net, req);
      if outcome == Failed then Run(fs1, [Attempt(req, outcome)], Aborted(TransferFailed(req.remote)))
      else
        var nested := ExecManifest(fs1, net, LocalPath(a, destination), RemoteBasePath(a, base), Parent(LocalPath(a, destination)));
        Run(nested.fs, [Attempt(req, outcome)] + nested.log, nested.status)
  }

  /** TopLevel after a successful read: the direct fetch, then (unless it failed) the nested manifest. */
  lemma TopLevelUnfold(fs: FileSystem, net: Network, e: AssemblyElem, base: Uri, destination: Path)
    requires Read(e, true).Ok?
    ensures var a := Read(e, true).value;
            var req := Request(RemotePath(a, base), LocalPath(a, destination), a.size);
            var fetched := Fetch(fs, net, req);
            var first := Run(fetched.0, [Attempt(req, fetched.1)], Completed);
            TopLevel(fs, net, e, base, destination)
            == if fetched.1 == Failed then first.(status := Aborted(TransferFailed(req.remote)))
               else Then(first, ExecManifest(fetched.0, net, req.local, RemoteBasePath(a, base), Parent(req.local)))
  {
  }

  /**
   * The top-level dependencies in document order, stopping at the first abort; a run that
   * completes made at least the direct attempt of every one of them.
   */
  function AppSteps(fs: FileSystem, net: Network, deps: seq<AssemblyElem>, base: Uri, destination: Path): (r: Run)
    ensures r.status == Completed ==> |r.log| >= |deps|
    decreases |deps|
  {
    if |deps| == 0 then Run(fs, [], Completed)
    else
      var prev := AppSteps(fs, net, deps[..|deps| - 1], base, destination);
      if prev.status.Aborted? then prev
      else Then(prev, TopLevel(prev.fs, net, deps[|deps| - 1], base, destination))
  }

  lemma {:induction false} AppStepsAbortedStable(fs: FileSystem, net: Network, deps: seq<AssemblyElem>, base: Uri, destination: Path, k: nat)
    requires k <= |deps|
    requires AppSteps(fs, net, deps[..k], base, destination).status.Aborted?
    ensures AppSteps(fs, net, deps, base, destination) == AppSteps(fs, net, deps[..k], base, destination)
    decreases |deps|
  {
    if k < |deps| {
      var init := deps[..|deps| - 1];
      assert init[..k] == deps[..k];
      AppStepsAbortedStable(fs, net, init, base, destination, k);
    } else {
      assert deps[..k] == deps;
    }
  }

  /** A run followed by another one that starts from its filesystem. */
  function Then(prev: Run, next: Run): Run
  {
    Run(next.fs, prev.log + next.log, next.status)
  }

  /** One more top-level dependency of a completed prefix, with earlier attempts in front of the log. */
  lemma AppStepsExtend(fs: FileSystem, net: Network, deps: seq<AssemblyElem>, base: Uri, destination: Path, i: nat, earlier: seq<Attempt>)
    requires i < |deps|
    requires AppSteps(fs, net, deps[..i], base, destination).status == Completed
    ensures var prev := Shift(earlier, AppSteps(fs, net, deps[..i], base, destination));
            Shift(earlier, AppSteps(fs, net, deps[..i + 1], base, destination))
            == Then(prev, TopLevel(prev.fs, net, deps[i], base, destination))
  {
    PrefixStep(deps, i);
    var prev := AppSteps(fs, net, deps[..i], base, destination);
    var last := TopLevel(prev.fs, net, deps[i], base, destination);
    AppendAssoc(earlier, prev.log, last.log);
  }

  /** A completed prefix followed by one more top-level dependency. */
  lemma AppStepsNext(fs: FileSystem, net: Network, deps: seq<AssemblyElem>, base: Uri, destination: Path, i: nat)
    requires i < |deps|
    requires AppSteps(fs, net, deps[..i], base, destination).status == Completed
    ensures var prev := AppSteps(fs, net, deps[..i], base, destination);
            AppSteps(fs, net, deps[..i + 1], base, destination) == Then(prev, TopLevel(prev.fs, net, deps[i], base, destination))
  {
    PrefixStep(deps, i);
  }

  /**
   * The i-th top-level dependency, reached with every earlier one completed, keeps the
   * earlier attempts in front. If it cannot be read it aborts with no attempt of its own;
   * otherwise its direct request comes next, and every attempt after that lands beside the
   * fetched file and comes from the dependency's remote base.
   */
  lemma AppStepsAt(fs: FileSystem, net: Network, deps: seq<AssemblyElem>, base: Uri, destination: Path, i: nat)
    requires i < |deps|
    requires AppSteps(fs, net, deps[..i], base, destination).status == Completed
    ensures var prev := AppSteps(fs, net, deps[..i], base, destination);
            var next := AppSteps(fs, net, deps[..i + 1], base, destination);
            IsPrefix(prev.log, next.log)
            && (Read(deps[i], true).Err? ==> next.log == prev.log && next.status == Aborted(Read(deps[i], true).error))
    ensures var prev := AppSteps(fs, net, deps[..i], base, destination);
            var next := AppSteps(fs, net, deps[..i + 1], base, destination);
            Read(deps[i], true).Ok? ==>
              var a := Read(deps[i], true).value;
              |next.log| > |prev.log|
              && next.log[|prev.log|].request == Request(RemotePath(a, base), LocalPath(a, destination), a.size)
              && forall k :: |prev.log| < k < |next.log| ==>
                   Under(next.log[k].request, RemoteBasePath(a, base), Parent(LocalPath(a, destination)))
  {
    var prev := AppSteps(fs, net, deps[..i], base, destination);
    AppStepsNext(fs, net, deps, base, destination, i);
    TopLevelAfter(prev, net, deps[i], base, destination);
  }

  /** `TopLevelShape` for a top-level dependency processed after the attempts of `prev`. */
  lemma TopLevelAfter(prev: Run, net: Network, e: AssemblyElem, base: Uri, destination: Path)
    ensures var next := Then(prev, TopLevel(prev.fs, net, e, base, destination));
            IsPrefix(prev.log, next.log)
            && (Read(e, true).Err? ==> next.log == prev.log && next.status == Aborted(Read(e, true).error))
    ensures var next := Then(prev, TopLevel(prev.fs, net, e, base, destination));
            Read(e, true).Ok? ==>
              var a := Read(e, true).value;
              |next.log| > |prev.log|
              && next.log[|prev.log|].request == Request(RemotePath(a, base), LocalPath(a, destination), a.size)
              && forall k :: |prev.log| < k < |next.log| ==>
                   Under(next.log[k].request, RemoteBasePath(a, base), Parent(LocalPath(a, destination)))
  {
    var last := TopLevel(prev.fs, net, e, base, destination);
    PrefixOfAppend(prev.log, last.log);
    if Read(e, true).Ok? {
      TopLevelShape(prev.fs, net, e, base, destination);
      AppendIndex(prev.log, last.log);
    } else {
      assert last.log == [];
    }
  }

  /**
   * `download_application(app, destination)`: the deployment base is computed before any
   * fetch, so an unreadable root manifest or a missing deployment provider aborts with
   * no attempt and no file written.
   */
  function RunApplication(fs: FileSystem, net: Network, app: Path, destination: Path): (r: Run)
    ensures (app !in fs || fs[app].document.None?) ==> r == Run(fs, [], Aborted(Unreadable(app)))
    ensures app in fs && fs[app].document.Some? && fs[app].document.value.deploymentCodebase.None?
            ==> r == Run(fs, [], Aborted(NoDeploymentProvider))
  {
    if app !in fs || fs[app].document.None? then Run(fs, [], Aborted(Unreadable(app)))
    else
      var root := fs[app].document.value;
      match root.deploymentCodebase
      case None => Run(fs, [], Aborted(NoDeploymentProvider))
      case Some(codebase) => AppSteps(fs, net, Installs(root.entries), ResolveDot(codebase), destination)
  }

  /**
   * A top-level dependency is fetched first, by the direct rule; every later attempt it
   * causes belongs to its nested manifest, lands beside the fetched file and comes from
   * the dependency's own remote directory.
   */
  lemma TopLevelShape(fs: FileSystem, net: Network, e: AssemblyElem, base: Uri, destination: Path)
    requires Read(e, true).Ok?
    ensures var a := Read(e, true).value;
            var r := TopLevel(fs, net, e, base, destination);
            |r.log| >= 1
            && r.log[0].request == Request(RemotePath(a, base), LocalPath(a, destination), a.size)
            && forall i :: 1 <= i < |r.log| ==>
                 Under(r.log[i].request, RemoteBasePath(a, base), Parent(LocalPath(a, destination)))
  {
    var a := Read(e, true).value;
    var req := Request(RemotePath(a, base), LocalPath(a, destination), a.size);
    var fetched := Fetch(fs, net, req);
    TopLevelUnfold(fs, net, e, base, destination);
    var r := TopLevel(fs, net, e, base, destination);
    if fetched.1 == Failed {
      assert r.log == [Attempt(req, fetched.1)];
    } else {
      var here := Parent(req.local);
      var there := RemoteBasePath(a, base);
      var nested := ExecManifest(fetched.0, net, req.local, there, here);
      assert r.log == [Attempt(req, fetched.1)] + nested.log;
      ManifestPlacement(fetched.0, net, req.local, there, here);
      AppendIndex([Attempt(req, fetched.1)], nested.log);
    }
  }

  /**
   * After a direct fetch that did not fail, the fetched file is read as a manifest: if it
   * does not parse the run stops after the direct attempt; otherwise every later attempt
   * is, in order, a request of that document's steps, with the dependency's remote base
   * and the fetched file's directory, and all of them are made when the run completes.
   */
  lemma TopLevelNested(fs: FileSystem, net: Network, e: AssemblyElem, base: Uri, destination: Path)
    requires Read(e, true).Ok?
    ensures var a := Read(e, true).value;
            var req := Request(RemotePath(a, base), LocalPath(a, destination), a.size);
            var fetched := Fetch(fs, net, req);
            var r := TopLevel(fs, net, e, base, destination);
            fetched.1 != Failed ==>
              if req.local in fetched.0 && fetched.0[req.local].document.Some? then
                var steps := ManifestSteps(fetched.0[req.local].document.value, RemoteBasePath(a, base), Parent(req.local));
                |r.log| <= 1 + |steps|
                && (forall i :: 1 <= i < |r.log| ==> steps[i - 1] == Ok(r.log[i].request))
                && (r.status == Completed ==> |r.log| == 1 + |steps|)
              else
                r.log == [Attempt(req, fetched.1)] && r.status == Aborted(Unreadable(req.local))
  {
    var a := Read(e, true).value;
    var req := Request(RemotePath(a, base), LocalPath(a, destination), a.size);
    var fetched := Fetch(fs, net, req);
    TopLevelUnfold(fs, net, e, base, destination);
    if fetched.1 != Failed && req.local in fetched.0 && fetched.0[req.local].document.Some? {
      var there := RemoteBasePath(a, base);
      var here := Parent(req.local);
      var steps := ManifestSteps(fetched.0[req.local].document.value, there, here);
      ExecManifestSteps(fetched.0, net, req.local, there, here);
      var nested := Exec(fetched.0, net, steps);
      var r := TopLevel(fs, net, e, base, destination);
      assert r.log == [Attempt(req, fetched.1)] + nested.log;
      ExecFollowsSteps(fetched.0, net, steps);
      forall i | 1 <= i < |r.log| ensures steps[i - 1] == Ok(r.log[i].request) {
        assert r.log[i] == nested.log[i - 1];
      }
    }
  }
}
