/**
 * `DependentAssembly`: one referenced component, with the codebase already in posix
 * form, its declared size, and whether it is a top-level ("direct") reference. Every
 * address and local path is derived from these three fields and nothing else.
 */
module Assemblies {
  import opened Wrappers
  import opened Seqs
  import opened PurePaths
  import opened Percent
  import opened Uris
  import opened Manifests

  /** Appended to the codebase of an indirect reference and of every plain file. */
  const DeploySuffix: string := ".deploy"

  datatype Assembly = Assembly(codebase: string, size: int, direct: bool)

  /**
   * `DependentAssembly.Read`: the codebase attribute is read first, then the size; the
   * stored codebase is the posix form of the attribute, so it holds no backslash and has
   * the parts the attribute has when both slash kinds separate.
   */
  function Read(e: AssemblyElem, direct: bool): (r: Result<Assembly, Error>)
    ensures r.Ok? <==> e.codebase.Some? && e.size.Size?
    ensures e.codebase.None? ==> r == Err(MissingAttribute("codebase"))
    ensures e.codebase.Some? && e.size.NoSize? ==> r == Err(MissingAttribute("size"))
    ensures e.codebase.Some? && e.size.BadSize? ==> r == Err(NotANumber)
    ensures r.Ok? ==> r.value.direct == direct && r.value.size == e.size.n
    ensures r.Ok? ==> '\\' !in r.value.codebase
    ensures r.Ok? ==> Parts(r.value.codebase, PosixSeparators) == Parts(e.codebase.value, WindowsSeparators)
  {
    match e.codebase
    case None => Err(MissingAttribute("codebase"))
    case Some(raw) =>
      match e.size
      case NoSize => Err(MissingAttribute("size"))
      case BadSize => Err(NotANumber)
      case Size(n) =>
        Ok(Assembly(AsPosix(raw), n, direct))
  }

  /** `_get_path_components`: the parts of the (suffixed, when indirect) codebase, each quoted. */
  function Components(a: Assembly): (r: seq<string>)
    ensures AllPosixParts(r)
  {
    var text := if a.direct then a.codebase else a.codebase + DeploySuffix;
    var ps := Parts(text, PosixSeparators);
    QuoteAllPosixParts(ps);
    QuoteAll(ps)
  }

  /** `get_remote_relative_path`: joining the components loses none of them and merges none. */
  function RemoteRelativePath(a: Assembly): (r: seq<string>)
    ensures r == Components(a)
  {
    PurePosixOf(Components(a))
  }

  /**
   * `get_remote_base_path`: the base joined with every component but the last; joining
   * them into a path neither loses nor merges any.
   */
  function RemoteBasePath(a: Assembly, base: Uri): (r: Uri)
    ensures r.origin == base.origin && r.path == base.path + DropLast(Components(a))
  {
    var cs := Components(a);
    assert AllPosixParts(DropLast(cs));
    JoinUri(base, PurePosixOf(DropLast(cs)))
  }

  /** `get_remote_path`: the base joined with all the components. */
  function RemotePath(a: Assembly, base: Uri): (r: Uri)
    ensures r.origin == base.origin && r.path == base.path + Components(a)
  {
    JoinUri(base, PurePosixOf(Components(a)))
  }

  /**
   * `get_local_path`: the destination joined with the codebase itself; everything after
   * the destination is a valid posix part.
   */
  function LocalPath(a: Assembly, destination: Path): (r: Path)
    ensures IsPrefix(destination, r)
    ensures forall i :: |destination| <= i < |r| ==> IsPosixPart(r[i])
  {
    var ps := Parts(a.codebase, PosixSeparators);
    PrefixOfAppend(destination, ps);
    assert forall i :: |destination| <= i < |destination| + |ps| ==> (destination + ps)[i] == ps[i - |destination|];
    destination + ps
  }

  // ---------------------------------------------------------------------------------
  // Properties
  // ---------------------------------------------------------------------------------

  lemma DeploySuffixUnreserved()
    ensures Quote(DeploySuffix) == DeploySuffix
    ensures DeploySuffix != [] && NoSeparator(DeploySuffix, PosixSeparators)
  {
    assert forall i :: 0 <= i < |DeploySuffix| ==> IsUnreserved(DeploySuffix[i]);
  }

  /** The Windows parts of a codebase attribute are valid posix parts. */
  lemma WindowsPartsArePosix(raw: string)
    ensures AllPosixParts(Parts(raw, WindowsSeparators))
  {
    var ps := Parts(raw, WindowsSeparators);
    forall i | 0 <= i < |ps| ensures IsPosixPart(ps[i]) {
      assert NoSeparator(ps[i], WindowsSeparators);
    }
  }

  lemma DirectComponents(e: AssemblyElem)
    requires e.codebase.Some? && e.size.Size?
    ensures Components(Read(e, true).value) == QuoteAll(Parts(e.codebase.value, WindowsSeparators))
  {
  }

  lemma DotDeployUnreserved()
    ensures "." + DeploySuffix == "..deploy"
    ensures Quote("..deploy") == "..deploy"
  {
    assert forall i :: 0 <= i < |"..deploy"| ==> IsUnreserved("..deploy"[i]);
  }

  /** Quoting a path whose last part carries ".deploy" quotes the part and keeps the suffix. */
  lemma QuoteAllSuffixed(init: seq<string>, last: string)
    ensures QuoteAll(init + [last + DeploySuffix]) == QuoteAll(init) + [Quote(last) + DeploySuffix]
  {
    DeploySuffixUnreserved();
    QuoteAppend(last, DeploySuffix);
    var lhs := QuoteAll(init + [last + DeploySuffix]);
    var rhs := QuoteAll(init) + [Quote(last) + DeploySuffix];
    assert |lhs| == |rhs|;
    forall i | 0 <= i < |lhs| ensures lhs[i] == rhs[i] {
      if i < |init| {
        assert (init + [last + DeploySuffix])[i] == init[i];
      }
    }
  }

  /** The quoted parts of rendered posix parts with ".deploy" appended to the text. */
  lemma SuffixedComponents(ps: seq<string>)
    requires AllPosixParts(ps)
    ensures QuoteAll(Parts(Render(ps) + DeploySuffix, PosixSeparators))
            == if ps == [] then ["..deploy"] else QuoteAll(ps[..|ps| - 1]) + [Quote(ps[|ps| - 1]) + DeploySuffix]
  {
    DeploySuffixUnreserved();
    SuffixParts(ps, DeploySuffix);
    if ps == [] {
      DotDeployUnreserved();
    } else {
      QuoteAllSuffixed(ps[..|ps| - 1], ps[|ps| - 1]);
    }
  }

  lemma IndirectComponents(e: AssemblyElem)
    requires e.codebase.Some? && e.size.Size?
    ensures var ps := Parts(e.codebase.value, WindowsSeparators);
            Components(Read(e, false).value)
            == if ps == [] then ["..deploy"] else QuoteAll(ps[..|ps| - 1]) + [Quote(ps[|ps| - 1]) + DeploySuffix]
  {
    var raw := e.codebase.value;
    var ps := Parts(raw, WindowsSeparators);
    assert Read(e, false).value.codebase == Render(ps);
    WindowsPartsArePosix(raw);
    SuffixedComponents(ps);
  }

  /**
   * The suffix rule. A direct reference's components are the quoted parts of its codebase;
   * an indirect one's are the same except that ".deploy" is appended to the last (or, for
   * a codebase with no parts, form the single component "..deploy").
   */
  lemma SuffixRule(e: AssemblyElem)
    requires e.codebase.Some? && e.size.Size?
    ensures var ps := Parts(e.codebase.value, WindowsSeparators);
            var direct := Components(Read(e, true).value);
            var indirect := Components(Read(e, false).value);
            |indirect| == (if ps == [] then 1 else |ps|) &&
            (ps == [] ==> direct == [] && indirect == ["..deploy"]) &&
            (ps != [] ==> |indirect| == |direct|
                          && DropLast(indirect) == DropLast(direct)
                          && indirect[|ps| - 1] == direct[|ps| - 1] + DeploySuffix)
  {
    var ps := Parts(e.codebase.value, WindowsSeparators);
    DirectComponents(e);
    IndirectComponents(e);
    if ps != [] {
      var n := |ps|;
      QuoteAllTake(ps, n - 1);
      AppendLast(QuoteAll(ps[..n - 1]), Quote(ps[n - 1]) + DeploySuffix);
    }
  }

  /**
   * `Read` turns '\' into '/' before anything splits the codebase, so the two spellings of
   * a codebase give the same assembly, hence the same components, addresses and local path.
   */
  lemma SpellingIrrelevant(e: AssemblyElem, raw: string, direct: bool, base: Uri, destination: Path)
    requires e.codebase == Some(raw) && e.size.Size?
    ensures var a := Read(e, direct).value;
            var b := Read(e.(codebase := Some(ForwardSlashes(raw))), direct).value;
            a == b && Components(a) == Components(b) && RemotePath(a, base) == RemotePath(b, base)
            && RemoteBasePath(a, base) == RemoteBasePath(b, base) && LocalPath(a, destination) == LocalPath(b, destination)
  {
    ForwardSlashesAsPosix(raw);
  }

  /**
   * The remote base is the remote path with its last part dropped; with at most one
   * component it is the deployment codebase itself, since an empty path joins as nothing.
   */
  lemma RemoteBaseDropsLast(a: Assembly, base: Uri)
    ensures |Components(a)| > 0 ==> RemoteBasePath(a, base) == Uri(base.origin, DropLast(RemotePath(a, base).path))
    ensures |Components(a)| <= 1 ==> RemoteBasePath(a, base) == base
  {
    var cs := Components(a);
    assert AllPosixParts(DropLast(cs));
    if |cs| > 0 {
      assert DropLast(base.path + cs) == base.path + DropLast(cs);
    }
    if |cs| <= 1 {
      assert base.path + [] == base.path;
    }
  }

  /** A codebase with a single part, direct or not, has the deployment codebase as its remote base. */
  lemma SingleSegmentBase(e: AssemblyElem, direct: bool, base: Uri)
    requires e.codebase.Some? && e.size.Size?
    requires |Parts(e.codebase.value, WindowsSeparators)| == 1
    ensures RemoteBasePath(Read(e, direct).value, base) == base
  {
    SuffixRule(e);
    RemoteBaseDropsLast(Read(e, direct).value, base);
  }

  /**
   * The local path is the destination joined with the slash-converted codebase: no
   * ".deploy", no percent-encoding, and the same for a direct and an indirect reference.
   */
  lemma LocalPathRule(e: AssemblyElem, direct: bool, destination: Path)
    requires e.codebase.Some? && e.size.Size?
    ensures LocalPath(Read(e, direct).value, destination) == destination + Parts(e.codebase.value, WindowsSeparators)
    ensures LocalPath(Read(e, direct).value, destination) == LocalPath(Read(e, !direct).value, destination)
  {
  }
}
