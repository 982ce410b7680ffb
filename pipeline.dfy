/**
 * `main` end to end: the manifests found, in the order of their paths, are
 * merged and written out. Reading a file is the function `contents`, which
 * gives the lines read from a path (none for a file that cannot be opened).
 */
module Pipeline {
  import opened Order
  import opened Parser
  import opened Aggregator
  import opened Manifest

  /** The lines of each file of `paths`, in that order. */
  function SourcesOf(paths: seq<string>, contents: string -> seq<string>): (r: seq<seq<string>>)
    ensures |r| == |paths| && forall i :: 0 <= i < |paths| ==> r[i] == contents(paths[i])
  {
    seq(|paths|, i requires 0 <= i < |paths| => contents(paths[i]))
  }

  /** `main`: gather from the found manifests in path order, then write the output lines. */
  method GatherAndWrite(found: seq<string>, contents: string -> seq<string>, vp: VersionedParser)
    returns (manifest: seq<string>)
    ensures var all := Aggregate(SourcesOf(NormalizePaths(found), contents), vp);
      && |manifest| == |all|
      && forall i :: 0 <= i < |all| ==> manifest[i] == all[SortedSet(all.Keys)[i]]
  {
    var reqFiles := NormalizePaths(found);
    var sources: seq<seq<string>> := [];
    for i := 0 to |reqFiles|
      invariant sources == SourcesOf(reqFiles[..i], contents)
    {
      sources := sources + [contents(reqFiles[i])];
    }
    assert reqFiles[..|reqFiles|] == reqFiles;
    var all := GatherRequirements(sources, vp);
    manifest := WriteManifest(all);
  }

  /**
   * Precedence between files is the order of their paths: a name not
   * excluded takes its text from the file with the smallest path that
   * declares it, from the first line there that does.
   */
  lemma SmallestPathWins(found: seq<string>, contents: string -> seq<string>, vp: VersionedParser,
                         path: string, j: nat, name: string)
    requires path in found && j < |contents(path)| && Declares(contents(path)[j], name, vp)
    requires forall j' :: 0 <= j' < j ==> !Declares(contents(path)[j'], name, vp)
    requires forall q, j' :: q in found && Below(q, path) && 0 <= j' < |contents(q)| ==> !Declares(contents(q)[j'], name, vp)
    requires name !in EXCLUDED_PACKAGES
    ensures name in Aggregate(SourcesOf(NormalizePaths(found), contents), vp)
    ensures Aggregate(SourcesOf(NormalizePaths(found), contents), vp)[name] == Parse(contents(path)[j], vp).value.spec
  {
    var paths := NormalizePaths(found);
    var sources := SourcesOf(paths, contents);
    var i :| 0 <= i < |paths| && paths[i] == path;
    forall i', j' | 0 <= i' < i && 0 <= j' < |sources[i']|
      ensures !Declares(sources[i'][j'], name, vp)
    {
      assert Below(paths[i'], path);
    }
    assert FirstDeclaredAt(sources, i, j, name, vp);
    EarliestDeclarationWins(sources, ADDITIONAL_PACKAGES, i, j, name, vp);
  }
}
