/**
 * The part of Python's pathlib that the script relies on: splitting a path string into
 * its parts, rendering parts back into a string, and `parent`. A path is held as its
 * sequence of parts, which is what `PurePosixPath(...).parts` gives.
 */
module PurePaths {
  /** A local filesystem path, as its parts (`Path("./unpack")` is `["unpack"]`). */
  type Path = seq<string>

  /** PurePosixPath separates parts with '/' only. */
  const PosixSeparators: set<char> := {'/'}

  /** PureWindowsPath accepts both '\' and '/' as separators. */
  const WindowsSeparators: set<char> := {'/', '\\'}

  predicate NoSeparator(p: string, seps: set<char>)
  {
    forall i :: 0 <= i < |p| ==> p[i] !in seps
  }

  /** Pathlib never keeps an empty part or a "." part. */
  predicate IsPart(p: string)
  {
    p != "" && p != "."
  }

  /** A part that can stand in a posix path: not empty, not ".", and no '/'. */
  predicate IsPosixPart(p: string)
  {
    IsPart(p) && NoSeparator(p, PosixSeparators)
  }

  predicate AllPosixParts(ps: seq<string>)
  {
    forall i :: 0 <= i < |ps| ==> IsPosixPart(ps[i])
  }

  /** The text between separators, empty pieces included; one more piece than separators. */
  function Pieces(s: string, seps: set<char>): (r: seq<string>)
    ensures |r| >= 1
    ensures forall i :: 0 <= i < |r| ==> NoSeparator(r[i], seps)
    decreases |s|
  {
    if s == [] then [""]
    else
      var rest := Pieces(s[1..], seps);
      if s[0] in seps then [""] + rest
      else [[s[0]] + rest[0]] + rest[1..]
  }

  /** Drops the empty and "." pieces, keeping the order of the others. */
  function DropEmpty(ps: seq<string>): (r: seq<string>)
    ensures |r| <= |ps|
    ensures forall i :: 0 <= i < |r| ==> IsPart(r[i]) && r[i] in ps
    ensures (forall i :: 0 <= i < |ps| ==> IsPart(ps[i])) ==> r == ps
  {
    if ps == [] then []
    else (if IsPart(ps[0]) then [ps[0]] else []) + DropEmpty(ps[1..])
  }

  /** The `parts` of a pure path parsed from `s` with separators `seps`. */
  function Parts(s: string, seps: set<char>): (r: seq<string>)
    ensures forall i :: 0 <= i < |r| ==> IsPart(r[i]) && NoSeparator(r[i], seps)
  {
    var pieces := Pieces(s, seps);
    var r := DropEmpty(pieces);
    assert forall i :: 0 <= i < |r| ==> r[i] in pieces;
    r
  }

  /** Dropping works piece by piece, so the kept pieces stay in their order. */
  lemma {:induction false} DropEmptyAppend(a: seq<string>, b: seq<string>)
    ensures DropEmpty(a + b) == DropEmpty(a) + DropEmpty(b)
    decreases |a|
  {
    if a == [] {
      assert a + b == b;
    } else {
      var head := if IsPart(a[0]) then [a[0]] else [];
      assert (a + b)[0] == a[0] && (a + b)[1..] == a[1..] + b;
      DropEmptyAppend(a[1..], b);
      calc {
        DropEmpty(a + b);
        head + DropEmpty(a[1..] + b);
        head + (DropEmpty(a[1..]) + DropEmpty(b));
        { assert head + (DropEmpty(a[1..]) + DropEmpty(b)) == (head + DropEmpty(a[1..])) + DropEmpty(b); }
        DropEmpty(a) + DropEmpty(b);
      }
    }
  }

  /** A piece is kept iff it is neither empty nor ".". */
  lemma {:induction false} DropEmptyComplete(ps: seq<string>, p: string)
    ensures p in DropEmpty(ps) <==> p in ps && IsPart(p)
    decreases |ps|
  {
    if ps != [] {
      DropEmptyComplete(ps[1..], p);
      assert ps == [ps[0]] + ps[1..];
    }
  }

  /** The parts joined with `sep` between consecutive ones. */
  function Join(ps: seq<string>, sep: char): string
  {
    if |ps| == 0 then ""
    else if |ps| == 1 then ps[0]
    else ps[0] + [sep] + Join(ps[1..], sep)
  }

  /** `str()` of a pure path with these parts: "." when there are none. */
  function Render(ps: seq<string>): string
  {
    if ps == [] then "." else Join(ps, '/')
  }

  /**
   * `PureWindowsPath(raw).as_posix()`: both slash kinds read as separators, '/' written.
   * The result holds no backslash and has, under posix parsing, the parts `raw` has as a
   * Windows path.
   */
  function AsPosix(raw: string): (r: string)
    ensures Parts(r, PosixSeparators) == Parts(raw, WindowsSeparators)
    ensures '\\' !in r
  {
    var ps := Parts(raw, WindowsSeparators);
    assert AllPosixParts(ps) by {
      forall i | 0 <= i < |ps| ensures IsPosixPart(ps[i]) {
        assert NoSeparator(ps[i], WindowsSeparators);
      }
    }
    RenderParts(ps);
    NoBackslashInJoin(ps);
    Render(ps)
  }

  /**
   * `PurePosixPath(*items).parts`: the items joined with '/' and parsed again. The result
   * is valid posix parts, and valid posix parts come back unchanged.
   */
  function PurePosixOf(items: seq<string>): (r: seq<string>)
    ensures AllPosixParts(r)
    ensures AllPosixParts(items) ==> r == items
  {
    var r := Parts(Join(items, '/'), PosixSeparators);
    assert AllPosixParts(items) ==> r == items by {
      if AllPosixParts(items) {
        if items == [] {
          assert Pieces("", PosixSeparators) == [""];
        } else {
          PiecesOfJoin(items, '/', PosixSeparators);
        }
      }
    }
    r
  }

  /** Python's `xs[:-1]`, which is empty for an empty list. */
  function DropLast<T>(xs: seq<T>): (r: seq<T>)
    ensures |xs| > 0 ==> r == xs[..|xs| - 1]
    ensures |xs| == 0 ==> r == []
  {
    if |xs| == 0 then [] else xs[..|xs| - 1]
  }

  /** `PurePath.parent` of a relative path: its last part dropped; the empty path is its own parent. */
  function Parent(p: Path): (r: Path)
    ensures |p| > 0 ==> r + [p[|p| - 1]] == p
    ensures |p| == 0 ==> r == p
  {
    DropLast(p)
  }

  /** Every backslash written as a forward slash. */
  function ForwardSlashes(s: string): (r: string)
    ensures |r| == |s|
    ensures forall i :: 0 <= i < |s| ==> r[i] == (if s[i] == '\\' then '/' else s[i])
  {
    if s == [] then [] else [if s[0] == '\\' then '/' else s[0]] + ForwardSlashes(s[1..])
  }

  // ---------------------------------------------------------------------------------
  // Splitting undoes joining
  // ---------------------------------------------------------------------------------

  /** A separator-free prefix extends the first piece of what follows it. */
  lemma {:induction false} PiecesOfPrefix(p: string, t: string, seps: set<char>)
    requires NoSeparator(p, seps)
    ensures Pieces(p + t, seps) == [p + Pieces(t, seps)[0]] + Pieces(t, seps)[1..]
    decreases |p|
  {
    if p != [] {
      var q := p[1..];
      assert p + t == [p[0]] + (q + t);
      assert (p + t)[1..] == q + t;
      PiecesOfPrefix(q, t, seps);
      assert [p[0]] + (q + Pieces(t, seps)[0]) == p + Pieces(t, seps)[0];
    } else {
      var r := Pieces(t, seps);
      assert p + t == t && p + r[0] == r[0];
      assert [r[0]] + r[1..] == r;
    }
  }

  /** Splitting the joined parts on a separator they do not contain gives the parts back. */
  lemma {:induction false} PiecesOfJoin(ps: seq<string>, sep: char, seps: set<char>)
    requires |ps| >= 1 && sep in seps
    requires forall i :: 0 <= i < |ps| ==> NoSeparator(ps[i], seps)
    ensures Pieces(Join(ps, sep), seps) == ps
    decreases |ps|
  {
    if |ps| == 1 {
      PiecesOfPrefix(ps[0], "", seps);
      assert ps[0] + "" == ps[0];
    } else {
      var rest := Join(ps[1..], sep);
      PiecesOfJoin(ps[1..], sep, seps);
      var tail := [sep] + rest;
      assert tail[1..] == rest;
      assert Pieces(tail, seps) == [""] + ps[1..];
      assert Join(ps, sep) == ps[0] + tail;
      PiecesOfPrefix(ps[0], tail, seps);
      assert ps[0] + "" == ps[0];
      assert [ps[0]] + ps[1..] == ps;
    }
  }

  /** Parsing a path rendered from valid posix parts gives the same parts back. */
  lemma RenderParts(ps: seq<string>)
    requires AllPosixParts(ps)
    ensures Parts(Render(ps), PosixSeparators) == ps
  {
    if ps == [] {
      PiecesOfPrefix(".", "", PosixSeparators);
      assert "." + "" == ".";
      assert Pieces(".", PosixSeparators) == ["."];
    } else {
      PiecesOfJoin(ps, '/', PosixSeparators);
    }
  }

  lemma {:induction false} NoBackslashInJoin(ps: seq<string>)
    requires forall i :: 0 <= i < |ps| ==> NoSeparator(ps[i], WindowsSeparators)
    ensures '\\' !in Render(ps)
    decreases |ps|
  {
    if |ps| > 1 {
      NoBackslashInJoin(ps[1..]);
      assert NoSeparator(ps[0], WindowsSeparators);
      assert Join(ps, '/') == ps[0] + ['/'] + Join(ps[1..], '/');
    } else if |ps| == 1 {
      assert NoSeparator(ps[0], WindowsSeparators);
    }
  }

  /** Appending text to a joined path appends it to the last part. */
  lemma {:induction false} JoinAppend(ps: seq<string>, sep: char, t: string)
    requires |ps| >= 1
    ensures Join(ps, sep) + t == Join(ps[..|ps| - 1] + [ps[|ps| - 1] + t], sep)
    decreases |ps|
  {
    var qs := ps[..|ps| - 1] + [ps[|ps| - 1] + t];
    if |ps| > 1 {
      JoinAppend(ps[1..], sep, t);
      assert qs[1..] == ps[1..][..|ps[1..]| - 1] + [ps[1..][|ps[1..]| - 1] + t];
      assert qs[0] == ps[0];
    }
  }

  /**
   * Appending a suffix to the rendered parts: the suffix joins the last part, or, when
   * there are no parts, follows the "." that rendering produced.
   */
  lemma SuffixParts(ps: seq<string>, t: string)
    requires AllPosixParts(ps)
    requires t != [] && NoSeparator(t, PosixSeparators)
    ensures Parts(Render(ps) + t, PosixSeparators)
         == if ps == [] then ["." + t] else ps[..|ps| - 1] + [ps[|ps| - 1] + t]
  {
    if ps == [] {
      var u := "." + t;
      PiecesOfPrefix(u, "", PosixSeparators);
      assert u + "" == u;
      assert Pieces(u, PosixSeparators) == [u];
      assert |u| > 1;
    } else {
      var n := |ps|;
      var qs := ps[..n - 1] + [ps[n - 1] + t];
      JoinAppend(ps, '/', t);
      var last := ps[n - 1] + t;
      assert NoSeparator(last, PosixSeparators) by {
        assert NoSeparator(ps[n - 1], PosixSeparators);
      }
      assert forall i :: 0 <= i < |qs| ==> IsPosixPart(qs[i]) by {
        forall i | 0 <= i < |qs| ensures IsPosixPart(qs[i]) {
          if i < n - 1 { assert qs[i] == ps[i]; } else { assert qs[i] == last && |last| > 1; }
        }
      }
      PiecesOfJoin(qs, '/', PosixSeparators);
    }
  }

  /** Backslashes and forward slashes are the same separator to a Windows path. */
  lemma {:induction false} ForwardSlashesPieces(s: string)
    ensures Pieces(ForwardSlashes(s), WindowsSeparators) == Pieces(s, WindowsSeparators)
    decreases |s|
  {
    if s != [] {
      ForwardSlashesPieces(s[1..]);
      var f := ForwardSlashes(s);
      assert f[1..] == ForwardSlashes(s[1..]);
    }
  }

  /** Both spellings of a codebase have the same Windows parts and the same posix form. */
  lemma ForwardSlashesAsPosix(raw: string)
    ensures Parts(ForwardSlashes(raw), WindowsSeparators) == Parts(raw, WindowsSeparators)
    ensures AsPosix(ForwardSlashes(raw)) == AsPosix(raw)
  {
    ForwardSlashesPieces(raw);
  }
}
