/**
 Deterministic packaging: `collect` of scripts/package_step023a.py, `included_files` of
 scripts/generate_package_manifest.py, and the archive names they lead to.
 */
module Packaging {
  import opened Ordering
  import PackageRoot

  /** A directory entry below the root, by the parts of its relative path. */
  datatype Entry = Entry(parts: seq<string>, isFile: bool)

  const EXCLUDED_DIRS := {".git", "node_modules", "dist", ".artifacts", "__pycache__"}
  const COMPILED_SUFFIXES := {".pyc", ".pyo"}
  const MANIFEST := "PACKAGE_MANIFEST.json"

  /** What a file system can hold: at least one part, none empty, none with a slash. */
  predicate ValidParts(parts: seq<string>) {
    parts != [] && forall i :: 0 <= i < |parts| ==> parts[i] != "" && '/' !in parts[i]
  }

  /** A listing of a tree: valid paths, each once. */
  ghost predicate Listing(entries: seq<Entry>) {
    && (forall i :: 0 <= i < |entries| ==> ValidParts(entries[i].parts))
    && forall i, j :: 0 <= i < j < |entries| ==> entries[i].parts != entries[j].parts
  }

  /** `relative_to(ROOT).as_posix()`. */
  function Posix(parts: seq<string>): string {
    if parts == [] then "" else if |parts| == 1 then parts[0] else parts[0] + "/" + Posix(parts[1..])
  }

  function PosixName(e: Entry): string {
    Posix(e.parts)
  }

  function LastPart(e: Entry): string {
    if e.parts == [] then "" else e.parts[|e.parts| - 1]
  }

  /** Position of the last dot, or -1. */
  function LastDot(name: string): (i: int)
    ensures -1 <= i < |name|
  {
    if name == "" then -1 else if name[|name| - 1] == '.' then |name| - 1 else LastDot(name[..|name| - 1])
  }

  /** `PurePath.suffix`: empty when the only dot is the first or the last character. */
  function Suffix(name: string): string {
    var i := LastDot(name);
    if 0 < i < |name| - 1 then name[i..] else ""
  }

  predicate Excluded(e: Entry) {
    exists i :: 0 <= i < |e.parts| && e.parts[i] in EXCLUDED_DIRS
  }

  predicate Packaged(e: Entry) {
    e.isFile && !Excluded(e) && Suffix(LastPart(e)) !in COMPILED_SUFFIXES
  }

  predicate Manifested(e: Entry) {
    e.isFile && !Excluded(e) && LastPart(e) != MANIFEST && Suffix(LastPart(e)) !in COMPILED_SUFFIXES
  }

  predicate NotManifest(e: Entry) {
    LastPart(e) != MANIFEST
  }

  /** The files of the archive in archive order. */
  function ArchiveFiles(entries: seq<Entry>): seq<Entry> {
    Sort(PosixName, Filter(Packaged, entries))
  }

  function ManifestFiles(entries: seq<Entry>): seq<Entry> {
    Sort(PosixName, Filter(Manifested, entries))
  }

  /** `collect`. */
  method Collect(entries: seq<Entry>) returns (files: seq<Entry>)
    ensures files == ArchiveFiles(entries)
  {
    files := [];
    for i := 0 to |entries|
      invariant files == Filter(Packaged, entries[..i])
    {
      FilterSnoc(Packaged, entries[..i], entries[i]);
      assert entries[..i + 1] == entries[..i] + [entries[i]];
      if Packaged(entries[i]) {
        files := files + [entries[i]];
      }
    }
    assert entries[..|entries|] == entries;
    files := Sort(PosixName, files);
  }

  /** `included_files`. */
  method IncludedFiles(entries: seq<Entry>) returns (files: seq<Entry>)
    ensures files == ManifestFiles(entries)
  {
    files := [];
    for i := 0 to |entries|
      invariant files == Filter(Manifested, entries[..i])
    {
      FilterSnoc(Manifested, entries[..i], entries[i]);
      assert entries[..i + 1] == entries[..i] + [entries[i]];
      if Manifested(entries[i]) {
        files := files + [entries[i]];
      }
    }
    assert entries[..|entries|] == entries;
    files := Sort(PosixName, files);
  }

  // ----- names

  /** Where the first part of a joined path ends. */
  lemma FirstPartEnds(a: string, x: string, b: string, y: string)
    requires '/' !in a && '/' !in b
    requires PackageRoot.Ends(x) && PackageRoot.Ends(y)
    requires a + x == b + y
    ensures a == b && x == y
  {
    PackageRoot.FirstPiece(a, x);
    PackageRoot.FirstPiece(b, y);
    assert a == (a + x)[..|a|] && b == (b + y)[..|b|];
    assert x == (a + x)[|a|..] && y == (b + y)[|b|..];
  }

  function PosixRest(parts: seq<string>): string
    requires parts != []
  {
    if |parts| == 1 then "" else "/" + Posix(parts[1..])
  }

  lemma PosixParts(parts: seq<string>)
    requires parts != []
    ensures Posix(parts) == parts[0] + PosixRest(parts)
  {
    assert |parts| > 1 ==> parts[0] + "/" + Posix(parts[1..]) == parts[0] + ("/" + Posix(parts[1..]));
  }

  /** Joining slash-free, non-empty parts with a slash loses nothing. */
  lemma {:induction false} PosixInjective(p: seq<string>, q: seq<string>)
    requires ValidParts(p) && ValidParts(q) && Posix(p) == Posix(q)
    ensures p == q
  {
    PosixParts(p);
    PosixParts(q);
    FirstPartEnds(p[0], PosixRest(p), q[0], PosixRest(q));
    assert |p| == 1 <==> |q| == 1;
    if |p| > 1 {
      assert Posix(p[1..]) == PosixRest(p)[1..] && Posix(q[1..]) == PosixRest(q)[1..];
      PosixInjective(p[1..], q[1..]);
    }
    assert p == [p[0]] + p[1..] && q == [q[0]] + q[1..];
  }

  lemma NamesAreInjective(entries: seq<Entry>)
    requires Listing(entries)
    ensures InjectiveOn(PosixName, entries) && Distinct(entries)
  {
    forall x, y | x in entries && y in entries && PosixName(x) == PosixName(y)
      ensures x == y
    {
      PosixInjective(x.parts, y.parts);
    }
  }

  // ----- the archive does not depend on the order of traversal

  /** Two listings of the same tree give the same archive, entry for entry. */
  lemma ArchiveForgetsTraversal(a: seq<Entry>, b: seq<Entry>)
    requires Listing(a) && Listing(b) && forall e :: e in a <==> e in b
    ensures ArchiveFiles(a) == ArchiveFiles(b) && ManifestFiles(a) == ManifestFiles(b)
  {
    NamesAreInjective(a);
    NamesAreInjective(b);
    DistinctPermutation(a, b);
    SortForgetsOrder(PosixName, a, b);
    FilterSort(Packaged, PosixName, a);
    FilterSort(Packaged, PosixName, b);
    FilterSort(Manifested, PosixName, a);
    FilterSort(Manifested, PosixName, b);
  }

  lemma {:induction false} FilterListing(keep: Entry -> bool, entries: seq<Entry>)
    requires Listing(entries)
    ensures Listing(Filter(keep, entries))
  {
    if entries != [] {
      var rest := entries[1..];
      FilterListing(keep, rest);
      FilterElements(keep, rest);
      var kept := Filter(keep, rest);
      forall j | 0 <= j < |kept|
        ensures kept[j].parts != entries[0].parts
      {
        assert kept[j] in rest;
        var i :| 0 <= i < |rest| && rest[i] == kept[j];
        assert entries[i + 1] == kept[j];
      }
    }
  }

  lemma SortKeepsDistinct(files: seq<Entry>)
    requires Distinct(files)
    ensures Distinct(Sort(PosixName, files))
  {
    var sorted := Sort(PosixName, files);
    SameElements(sorted, files);
    forall x | x in sorted
      ensures multiset(sorted)[x] == 1
    {
      DistinctIsOnceEach(files, x);
    }
    OnceEachIsDistinct(sorted);
  }

  /** Archive names are strictly increasing, so the duplicate-name failure never comes from `collect`. */
  lemma ArchiveNamesStrictlyIncrease(entries: seq<Entry>, i: nat, j: nat)
    requires Listing(entries) && i < j < |ArchiveFiles(entries)|
    ensures Below(PosixName(ArchiveFiles(entries)[i]), PosixName(ArchiveFiles(entries)[j]))
    ensures PosixName(ArchiveFiles(entries)[i]) != PosixName(ArchiveFiles(entries)[j])
  {
    var kept := Filter(Packaged, entries);
    var files := ArchiveFiles(entries);
    FilterListing(Packaged, entries);
    NamesAreInjective(kept);
    SortIsSorted(PosixName, kept);
    SortKeepsDistinct(kept);
    SameElements(files, kept);
    assert files[i] in kept && files[j] in kept;
    assert files[i] != files[j];
  }

  function Names(files: seq<Entry>): (names: seq<string>)
    ensures |names| == |files| && forall i :: 0 <= i < |files| ==> names[i] == PosixName(files[i])
  {
    seq(|files|, i requires 0 <= i < |files| => PosixName(files[i]))
  }

  lemma {:induction false} DistinctCardinality(names: seq<string>)
    requires Distinct(names)
    ensures |set n | n in names| == |names|
  {
    if names != [] {
      DistinctCardinality(names[1..]);
      assert (set n | n in names) == {names[0]} + (set n | n in names[1..]);
      assert names[0] !in names[1..];
    }
  }

  /** `len(names) != len(set(names))` never holds. */
  lemma DuplicateCheckPasses(entries: seq<Entry>)
    requires Listing(entries)
    ensures var names := Names(ArchiveFiles(entries)); |names| == |set n | n in names|
  {
    var names := Names(ArchiveFiles(entries));
    forall i, j | 0 <= i < j < |names|
      ensures names[i] != names[j]
    {
      ArchiveNamesStrictlyIncrease(entries, i, j);
    }
    DistinctCardinality(names);
  }

  // ----- the manifest agrees with the archive

  lemma {:induction false} FilterTwice(entries: seq<Entry>)
    ensures Filter(NotManifest, Filter(Packaged, entries)) == Filter(Manifested, entries)
  {
    if entries != [] {
      FilterTwice(entries[1..]);
      FilterCons(NotManifest, entries[0], Filter(Packaged, entries[1..]));
    }
  }

  /** On any listing the manifest lists the archive without the files named like the manifest, in the same order. */
  lemma ManifestMatchesArchive(entries: seq<Entry>)
    ensures ManifestFiles(entries) == Filter(NotManifest, ArchiveFiles(entries))
  {
    FilterSort(NotManifest, PosixName, Filter(Packaged, entries));
    FilterTwice(entries);
  }

  // ----- what is in the archive

  lemma {:induction false} DotFree(name: string, tail: string)
    requires '.' !in tail
    ensures LastDot(name + tail) == LastDot(name)
  {
    if tail == "" {
      assert name + tail == name;
    } else {
      var n := |tail| - 1;
      DotFree(name, tail[..n]);
      assert (name + tail)[..|name + tail| - 1] == name + tail[..n];
      assert (name + tail)[|name + tail| - 1] == tail[n];
    }
  }

  /** A name has a compiled suffix exactly when it ends in one and is more than that. */
  lemma CompiledIff(name: string)
    ensures Suffix(name) in COMPILED_SUFFIXES <==> |name| > 4 && name[|name| - 4..] in {".pyc", ".pyo"}
  {
    if |name| > 4 && name[|name| - 4..] in {".pyc", ".pyo"} {
      var n := |name| - 4;
      var stem, tail := name[..n + 1], name[n + 1..];
      assert name == stem + tail && stem[n] == '.';
      assert tail == name[n..][1..];
      DotFree(stem, tail);
    }
  }

  /** The archive holds exactly the files outside the excluded directories that are not compiled Python. */
  lemma ArchiveHolds(entries: seq<Entry>, e: Entry)
    ensures e in ArchiveFiles(entries)
       <==> && e in entries && e.isFile
            && (forall part :: part in e.parts ==> part !in {".git", "node_modules", "dist", ".artifacts", "__pycache__"})
            && !(|LastPart(e)| > 4 && LastPart(e)[|LastPart(e)| - 4..] in {".pyc", ".pyo"})
  {
    SameElements(ArchiveFiles(entries), Filter(Packaged, entries));
    FilterElements(Packaged, entries);
    CompiledIff(LastPart(e));
    hide Suffix, LastPart, ArchiveFiles;
    if part :| part in e.parts && part in EXCLUDED_DIRS {
      var i :| 0 <= i < |e.parts| && e.parts[i] == part;
      assert Excluded(e);
    }
  }

  /** Split at the slashes, an archive name gives the parts of the path. */
  lemma {:induction false} PosixSplits(parts: seq<string>)
    requires ValidParts(parts)
    ensures PackageRoot.Split(Posix(parts)) == parts
  {
    PosixParts(parts);
    PackageRoot.FirstPiece(parts[0], PosixRest(parts));
    if |parts| > 1 {
      PosixSplits(parts[1..]);
      var s := Posix(parts);
      assert s[|parts[0]| + 1..] == Posix(parts[1..]);
      assert parts == [parts[0]] + parts[1..];
    } else {
      assert parts == [parts[0]];
    }
  }
}
