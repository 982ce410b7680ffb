/**
 * The two places where the script sorts: the output loop of `main`, which
 * writes one line per dictionary entry by ascending name, and the last step
 * of `find_requirements_files`, `sorted(list(set(found_files)))`.
 */
module Manifest {
  import opened Order
  import opened Aggregator

  /**
   * The output loop of `main`: for each name of `all` in ascending order,
   * the line `str(all[name])` (the newline the script appends is not part
   * of the modelled line).
   */
  method WriteManifest(all: Requirements) returns (lines: seq<string>)
    ensures |lines| == |all|
    ensures var names := SortedSet(all.Keys);
      forall i :: 0 <= i < |names| ==> lines[i] == all[names[i]]
  {
    var names := SortedSet(all.Keys);
    lines := [];
    for i := 0 to |names|
      invariant |lines| == i
      invariant forall k :: 0 <= k < i ==> lines[k] == all[names[k]]
    {
      lines := lines + [all[names[i]]];
    }
  }

  /**
   * Each entry is written exactly once: the line at position i carries the
   * text of the entry whose name has exactly i smaller names in the
   * dictionary, and lines come strictly in the order of their names.
   */
  lemma ManifestOrder(all: Requirements, lines: seq<string>, name: string)
    requires |lines| == |all|
    requires forall i :: 0 <= i < |SortedSet(all.Keys)| ==> lines[i] == all[SortedSet(all.Keys)[i]]
    requires name in all
    ensures exists i :: (
      && 0 <= i < |lines| && lines[i] == all[name]
      && SortedSet(all.Keys)[i] == name
      && (forall k :: 0 <= k < i ==> Below(SortedSet(all.Keys)[k], name))
      && (forall k :: i < k < |lines| ==> Below(name, SortedSet(all.Keys)[k])))
  {
    var names := SortedSet(all.Keys);
    var i :| 0 <= i < |names| && names[i] == name;
    assert lines[i] == all[name];
  }

  /** `sorted(list(set(found)))`: the collected paths, each once, in ascending order. */
  function NormalizePaths(found: seq<string>): (r: seq<string>)
    ensures StrictlyAscending(r)
    ensures forall p :: p in r <==> p in found
  {
    SortedSet(set p | p in found)
  }

  /** The result depends only on which paths were found, not on the order or repetition of the walk. */
  lemma NormalizePathsOrderInsensitive(a: seq<string>, b: seq<string>)
    requires forall p :: p in a <==> p in b
    ensures NormalizePaths(a) == NormalizePaths(b)
  {
    AscendingUnique(NormalizePaths(a), NormalizePaths(b));
  }

  /** Normalising an already normalised list changes nothing. */
  lemma NormalizePathsIdempotent(found: seq<string>)
    ensures NormalizePaths(NormalizePaths(found)) == NormalizePaths(found)
  {
    AscendingUnique(NormalizePaths(NormalizePaths(found)), NormalizePaths(found));
  }
}
