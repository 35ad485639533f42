/**
 * A parsed manifest document: the `deploymentProvider` codebase, and the
 * `dependency/dependentAssembly` and `file` elements in document order. XML parsing
 * itself is not modelled; attributes arrive already read, possibly absent.
 */
module Manifests {
  import opened Wrappers
  import opened Seqs
  import opened Uris
  import opened PurePaths

  /** A `size` attribute: absent, not an integer literal, or the integer `int()` reads. */
  datatype SizeAttr = NoSize | BadSize | Size(n: int)

  /** One `asmv2:dependentAssembly` element under an `asmv2:dependency` element. */
  datatype AssemblyElem = AssemblyElem(dependencyType: Option<string>, codebase: Option<string>, size: SizeAttr)

  /** One `asmv2:file` element. */
  datatype FileElem = FileElem(name: Option<string>, size: SizeAttr)

  datatype Entry = Dependency(assembly: AssemblyElem) | File(file: FileElem)

  /** `deploymentCodebase` is the `codebase` of `deployment/deploymentProvider`, when both exist. */
  datatype Manifest = Manifest(deploymentCodebase: Option<Uri>, entries: seq<Entry>)

  /** What aborts a run; the script catches none of these. */
  datatype Error =
    | Unreadable(path: Path)          // ETree.parse: no such file, or not well-formed XML
    | MissingAttribute(name: string)  // KeyError on `attrib[...]`
    | NotANumber                      // ValueError from `int(...)` on a size
    | NoDeploymentProvider            // `find(...)` gave None, or it has no codebase
    | TransferFailed(uri: Uri)        // urlopen raised

  /** The XPath predicate `[@dependencyType='install']`. */
  predicate IsInstall(a: AssemblyElem)
  {
    a.dependencyType == Some("install")
  }

  /** `findall("./asmv2:dependency/asmv2:dependentAssembly[@dependencyType='install']")`. */
  function Installs(entries: seq<Entry>): (r: seq<AssemblyElem>)
    ensures |r| <= |entries|
    ensures forall i :: 0 <= i < |r| ==> IsInstall(r[i]) && Dependency(r[i]) in entries
  {
    if entries == [] then []
    else
      var rest := Installs(entries[1..]);
      assert forall i :: 0 <= i < |rest| ==> Dependency(rest[i]) in entries[1..];
      match entries[0]
      case Dependency(a) => if IsInstall(a) then [a] + rest else rest
      case File(_) => rest
  }

  /** `findall("./asmv2:file")`. */
  function Files(entries: seq<Entry>): (r: seq<FileElem>)
    ensures |r| <= |entries|
    ensures forall i :: 0 <= i < |r| ==> File(r[i]) in entries
  {
    if entries == [] then []
    else
      var rest := Files(entries[1..]);
      assert forall i :: 0 <= i < |rest| ==> File(rest[i]) in entries[1..];
      match entries[0]
      case File(f) => [f] + rest
      case Dependency(_) => rest
  }

  /**
   * The install query keeps document order: over a concatenation it is the concatenation
   * of the queries.
   */
  lemma {:induction false} InstallsAppend(a: seq<Entry>, b: seq<Entry>)
    ensures Installs(a + b) == Installs(a) + Installs(b)
    decreases |a|
  {
    if a == [] {
      assert a + b == b;
    } else {
      assert (a + b)[0] == a[0] && (a + b)[1..] == a[1..] + b;
      InstallsAppend(a[1..], b);
      AppendAssoc(Installs([a[0]]), Installs(a[1..]), Installs(b));
      InstallsCons(a[0], a[1..]);
      InstallsCons(a[0], a[1..] + b);
    }
  }

  /** The first entry contributes itself exactly when it is an install dependency. */
  lemma InstallsCons(e: Entry, rest: seq<Entry>)
    ensures Installs([e] + rest) == Installs([e]) + Installs(rest)
    ensures Installs([e]) == if e.Dependency? && IsInstall(e.assembly) then [e.assembly] else []
  {
    assert ([e] + rest)[1..] == rest;
    assert [e][1..] == [];
  }

  /** The file query keeps document order and skips every dependency element. */
  lemma {:induction false} FilesAppend(a: seq<Entry>, b: seq<Entry>)
    ensures Files(a + b) == Files(a) + Files(b)
    decreases |a|
  {
    if a == [] {
      assert a + b == b;
    } else {
      assert (a + b)[0] == a[0] && (a + b)[1..] == a[1..] + b;
      FilesAppend(a[1..], b);
      AppendAssoc(Files([a[0]]), Files(a[1..]), Files(b));
      FilesCons(a[0], a[1..]);
      FilesCons(a[0], a[1..] + b);
    }
  }

  /** The first entry contributes itself exactly when it is a file. */
  lemma FilesCons(e: Entry, rest: seq<Entry>)
    ensures Files([e] + rest) == Files([e]) + Files(rest)
    ensures Files([e]) == if e.File? then [e.file] else []
  {
    assert ([e] + rest)[1..] == rest;
    assert [e][1..] == [];
  }

  /** Every install dependency of the document is found, and nothing else. */
  lemma {:induction false} InstallsComplete(entries: seq<Entry>, x: AssemblyElem)
    ensures x in Installs(entries) <==> Dependency(x) in entries && IsInstall(x)
    decreases |entries|
  {
    if entries != [] {
      InstallsComplete(entries[1..], x);
      assert entries == [entries[0]] + entries[1..];
    }
  }

  /** Every file element of the document is found, and nothing else. */
  lemma {:induction false} FilesComplete(entries: seq<Entry>, x: FileElem)
    ensures x in Files(entries) <==> File(x) in entries
    decreases |entries|
  {
    if entries != [] {
      FilesComplete(entries[1..], x);
      assert entries == [entries[0]] + entries[1..];
    }
  }
}
