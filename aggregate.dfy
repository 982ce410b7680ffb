/**
 * The merge in `main`: every line of every source, in order, then the
 * supplemental packages, offered to a write-once dictionary from name to
 * requirement text.
 */
module Aggregator {
  import opened Wrappers
  import opened Text
  import opened Parser

  /** Packages added after all sources, in this order. */
  const ADDITIONAL_PACKAGES: seq<string> := [
    "torch==2.6.0",
    "torchvision",
    "torchaudio",
    "xformers==0.0.29.post3",
    "opencv-python==4.8.0.76",
    "opencv-contrib-python==4.8.0.76",
    "sageattention==1.0.6",
    "bizyengine==1.2.4"
  ]

  /**
   * Names never admitted. The entries carry versions, and the test is
   * literal list membership of the parsed name.
   */
  const EXCLUDED_PACKAGES: seq<string> := [
    "insightface==0.7.3",
    "dlib==19.24.2",
    "fairscale==0.4.13"
  ]

  /** The dictionary `all_requirements`: name to the text `str(requirement)` writes. */
  type Requirements = map<string, string>

  /** `line` parses to a requirement named `name`. */
  predicate Declares(line: string, name: string, vp: VersionedParser)
  {
    Parse(line, vp).Some? && Parse(line, vp).value.name == name
  }

  /** One pass of the loop body: parse the line, skip excluded and already present names, else insert. */
  function Offer(m: Requirements, line: string, vp: VersionedParser): (r: Requirements)
    ensures forall k :: k in r <==> k in m || (Declares(line, k, vp) && k !in EXCLUDED_PACKAGES)
    ensures forall k :: k in m ==> r[k] == m[k]
    ensures forall k :: k in r && k !in m ==> Declares(line, k, vp) && r[k] == Parse(line, vp).value.spec
  {
    match Parse(line, vp)
    case None => m
    case Some(req) =>
      if req.name in EXCLUDED_PACKAGES || req.name in m then m
      else m[req.name := req.spec]
  }

  /**
   * The dictionary after offering every line of `lines`, in order, to `m`.
   * First wins: an entry, once present, keeps its text; every entry added is
   * a name some line declares that is not excluded.
   */
  function MergeLines(m: Requirements, lines: seq<string>, vp: VersionedParser): (r: Requirements)
    ensures forall k :: k in m ==> k in r && r[k] == m[k]
    ensures forall k :: k in r && k !in m ==> k !in EXCLUDED_PACKAGES && exists i :: 0 <= i < |lines| && Declares(lines[i], k, vp)
    decreases |lines|
  {
    if lines == [] then m else MergeLines(Offer(m, lines[0], vp), lines[1..], vp)
  }

  /** The lines of all sources, source after source. */
  function Flatten(sources: seq<seq<string>>): seq<string>
  {
    if sources == [] then [] else sources[0] + Flatten(sources[1..])
  }

  /**
   * The dictionary built from the sources, then the supplemental list
   * `extra`: the reference dictionary of all those lines.
   */
  function Gathered(sources: seq<seq<string>>, extra: seq<string>, vp: VersionedParser): (r: Requirements)
    ensures r == Reference(Flatten(sources) + extra, vp)
  {
    MergeIsReference(Flatten(sources) + extra, vp);
    MergeLines(map[], Flatten(sources) + extra, vp)
  }

  /**
   * What `main` leaves in `all_requirements` before writing it out: each
   * non-excluded name declared by a source line or a supplemental package,
   * with the text of its first declaration.
   */
  function Aggregate(sources: seq<seq<string>>, vp: VersionedParser): (r: Requirements)
    ensures r == Reference(Flatten(sources) + ADDITIONAL_PACKAGES, vp)
  {
    Gathered(sources, ADDITIONAL_PACKAGES, vp)
  }

  // ---------------------------------------------------------------------
  // An independent description of the result: each non-excluded name that
  // some line declares, mapped to the text of its first declaration.

  /** The names the lines of `lines` declare. */
  function Names(lines: seq<string>, vp: VersionedParser): (r: set<string>)
    ensures forall n :: n in r <==> exists i :: 0 <= i < |lines| && Declares(lines[i], n, vp)
  {
    if lines == [] then {}
    else
      var rest := Names(lines[1..], vp);
      assert forall i :: 1 <= i < |lines| ==> lines[i] == lines[1..][i - 1];
      (if Parse(lines[0], vp).Some? then {Parse(lines[0], vp).value.name} else {}) + rest
  }

  /** The text of the first line of `lines` that declares `name`. */
  function FirstSpec(lines: seq<string>, name: string, vp: VersionedParser): (r: Option<string>)
    ensures r.Some? <==> name in Names(lines, vp)
  {
    if lines == [] then None
    else if Declares(lines[0], name, vp) then Some(Parse(lines[0], vp).value.spec)
    else FirstSpec(lines[1..], name, vp)
  }

  /** The line at index i, when no earlier line declares `name`, supplies its first text. */
  lemma {:induction false} FirstSpecIsEarliest(lines: seq<string>, i: nat, name: string, vp: VersionedParser)
    requires i < |lines| && Declares(lines[i], name, vp)
    requires forall j :: 0 <= j < i ==> !Declares(lines[j], name, vp)
    ensures FirstSpec(lines, name, vp) == Some(Parse(lines[i], vp).value.spec)
    decreases i
  {
    if i > 0 {
      assert !Declares(lines[0], name, vp);
      assert FirstSpec(lines, name, vp) == FirstSpec(lines[1..], name, vp);
      assert lines[1..][i - 1] == lines[i];
      forall j | 0 <= j < i - 1
        ensures !Declares(lines[1..][j], name, vp)
      {
        assert lines[1..][j] == lines[j + 1];
      }
      FirstSpecIsEarliest(lines[1..], i - 1, name, vp);
    }
  }

  /** The dictionary the merge is meant to build from `lines`. */
  function Reference(lines: seq<string>, vp: VersionedParser): Requirements
  {
    map n | n in Names(lines, vp) && n !in EXCLUDED_PACKAGES :: FirstSpec(lines, n, vp).value
  }

  /**
   * Merging `lines` into `m` keeps every entry of `m` and adds exactly the
   * non-excluded names the lines declare that `m` lacks, each with its
   * first declaration.
   */
  lemma {:induction false} MergeCharacterized(m: Requirements, lines: seq<string>, vp: VersionedParser)
    ensures forall n :: n in MergeLines(m, lines, vp) <==> n in m || (n in Names(lines, vp) && n !in EXCLUDED_PACKAGES)
    ensures forall n :: n in m ==> MergeLines(m, lines, vp)[n] == m[n]
    ensures forall n :: n in MergeLines(m, lines, vp) && n !in m ==> MergeLines(m, lines, vp)[n] == FirstSpec(lines, n, vp).value
    decreases |lines|
  {
    if lines != [] {
      var m' := Offer(m, lines[0], vp);
      MergeCharacterized(m', lines[1..], vp);
      forall n | n in MergeLines(m, lines, vp) && n !in m
        ensures MergeLines(m, lines, vp)[n] == FirstSpec(lines, n, vp).value
      {
        if !Declares(lines[0], n, vp) {
          assert FirstSpec(lines, n, vp) == FirstSpec(lines[1..], n, vp);
        }
      }
    }
  }

  /** Starting from an empty dictionary, the merge builds exactly the reference dictionary. */
  lemma MergeIsReference(lines: seq<string>, vp: VersionedParser)
    ensures MergeLines(map[], lines, vp) == Reference(lines, vp)
  {
    MergeCharacterized(map[], lines, vp);
  }

  /** Offering lines one list after another is offering their concatenation. */
  lemma {:induction false} MergeConcat(m: Requirements, a: seq<string>, b: seq<string>, vp: VersionedParser)
    ensures MergeLines(m, a + b, vp) == MergeLines(MergeLines(m, a, vp), b, vp)
    decreases |a|
  {
    if a != [] {
      assert (a + b)[0] == a[0] && (a + b)[1..] == a[1..] + b;
      MergeConcat(Offer(m, a[0], vp), a[1..], b, vp);
    } else {
      assert a + b == b;
    }
  }

  // ---------------------------------------------------------------------
  // The policies of the merge, stated over the sources and any supplemental
  // list `extra`; `main` uses ADDITIONAL_PACKAGES.

  /** No key of the final dictionary is in EXCLUDED_PACKAGES. */
  lemma ExclusionDominates(sources: seq<seq<string>>, extra: seq<string>, vp: VersionedParser)
    ensures forall n :: n in Gathered(sources, extra, vp) ==> n !in EXCLUDED_PACKAGES
  {
    MergeCharacterized(map[], Flatten(sources) + extra, vp);
  }

  /** Every key of the final dictionary was declared by some source line or supplemental package. */
  lemma KeysAreDeclared(sources: seq<seq<string>>, extra: seq<string>, vp: VersionedParser)
    ensures forall n :: n in Gathered(sources, extra, vp) ==> n in Names(Flatten(sources) + extra, vp)
  {
    MergeCharacterized(map[], Flatten(sources) + extra, vp);
  }

  /** Line j of source i is among the lines the merge visits, right after those of the earlier sources. */
  lemma FlattenHoldsEveryLine(sources: seq<seq<string>>, i: nat, j: nat)
    requires i < |sources| && j < |sources[i]|
    ensures |Flatten(sources[..i])| + j < |Flatten(sources)|
    ensures Flatten(sources)[|Flatten(sources[..i])| + j] == sources[i][j]
  {
    FlattenSplit(sources, i);
  }

  /** Every non-excluded name declared by a source line ends up a key. */
  lemma SourceNamesIncluded(sources: seq<seq<string>>, extra: seq<string>, i: nat, j: nat, vp: VersionedParser)
    requires i < |sources| && j < |sources[i]|
    requires Parse(sources[i][j], vp).Some? && Parse(sources[i][j], vp).value.name !in EXCLUDED_PACKAGES
    ensures Parse(sources[i][j], vp).value.name in Gathered(sources, extra, vp)
  {
    var lines := Flatten(sources) + extra;
    FlattenHoldsEveryLine(sources, i, j);
    var name := Parse(sources[i][j], vp).value.name;
    assert lines[|Flatten(sources[..i])| + j] == sources[i][j];
    assert name in Names(lines, vp);
    assert name in Reference(lines, vp);
  }

  /** Every non-excluded supplemental package ends up a key. */
  lemma SupplementalNamesIncluded(sources: seq<seq<string>>, extra: seq<string>, j: nat, vp: VersionedParser)
    requires j < |extra|
    requires Parse(extra[j], vp).Some? && Parse(extra[j], vp).value.name !in EXCLUDED_PACKAGES
    ensures Parse(extra[j], vp).value.name in Gathered(sources, extra, vp)
  {
    var lines := Flatten(sources) + extra;
    var name := Parse(extra[j], vp).value.name;
    assert lines[|Flatten(sources)| + j] == extra[j];
    assert name in Names(lines, vp);
    assert name in Reference(lines, vp);
  }

  /** The dictionary the sources alone produce. */
  function FromSources(sources: seq<seq<string>>, vp: VersionedParser): Requirements
  {
    MergeLines(map[], Flatten(sources), vp)
  }

  /**
   * Supplemental packages never override a source's entry, and add a name
   * only when no source supplied it and it is not excluded; its text is
   * then that of the first supplemental package naming it.
   */
  lemma SupplementNeverOverrides(sources: seq<seq<string>>, extra: seq<string>, vp: VersionedParser)
    ensures forall n :: n in FromSources(sources, vp) ==>
      n in Gathered(sources, extra, vp) && Gathered(sources, extra, vp)[n] == FromSources(sources, vp)[n]
    ensures forall n :: n in Gathered(sources, extra, vp) && n !in FromSources(sources, vp) ==>
      n in Names(extra, vp) && n !in EXCLUDED_PACKAGES
      && Gathered(sources, extra, vp)[n] == FirstSpec(extra, n, vp).value
  {
    MergeConcat(map[], Flatten(sources), extra, vp);
    MergeCharacterized(FromSources(sources, vp), extra, vp);
  }

  /** Where a name is first declared in the lines of sources i, j. */
  predicate FirstDeclaredAt(sources: seq<seq<string>>, i: nat, j: nat, name: string, vp: VersionedParser)
  {
    && i < |sources| && j < |sources[i]| && Declares(sources[i][j], name, vp)
    && (forall i', j' :: 0 <= i' < i && 0 <= j' < |sources[i']| ==> !Declares(sources[i'][j'], name, vp))
    && (forall j' :: 0 <= j' < j ==> !Declares(sources[i][j'], name, vp))
  }

  /** Flatten places line j of source i after the lines of all earlier sources. */
  lemma {:induction false} FlattenSplit(sources: seq<seq<string>>, i: nat)
    requires i < |sources|
    ensures Flatten(sources) == Flatten(sources[..i]) + sources[i] + Flatten(sources[i + 1..])
    decreases i
  {
    if i > 0 {
      FlattenSplit(sources[1..], i - 1);
      assert sources[1..][..i - 1] == sources[1..i];
      assert sources[1..][i - 1 + 1..] == sources[i + 1..];
      assert sources[..i][0] == sources[0] && sources[..i][1..] == sources[1..i];
      var mid, back := Flatten(sources[1..i]), Flatten(sources[i + 1..]);
      assert Flatten(sources[..i]) == sources[0] + mid;
      assert Flatten(sources) == sources[0] + (mid + sources[i] + back);
    } else {
      assert sources[..0] == [];
    }
  }

  /** The first declaration in a list made of two parts is in the first part if it declares the name at all. */
  lemma {:induction false} FirstSpecConcat(a: seq<string>, b: seq<string>, name: string, vp: VersionedParser)
    ensures FirstSpec(a + b, name, vp) == if FirstSpec(a, name, vp).Some? then FirstSpec(a, name, vp) else FirstSpec(b, name, vp)
    decreases |a|
  {
    if a != [] {
      assert (a + b)[0] == a[0] && (a + b)[1..] == a[1..] + b;
      FirstSpecConcat(a[1..], b, name, vp);
    } else {
      assert a + b == b;
    }
  }

  /** Earlier sources hold no declaration of a name first declared in source i. */
  lemma {:induction false} NoEarlierDeclaration(sources: seq<seq<string>>, i: nat, name: string, vp: VersionedParser)
    requires i <= |sources|
    requires forall i', j' :: 0 <= i' < i && 0 <= j' < |sources[i']| ==> !Declares(sources[i'][j'], name, vp)
    ensures FirstSpec(Flatten(sources[..i]), name, vp).None?
    decreases i
  {
    if i > 0 {
      var front := sources[..i];
      assert front[0] == sources[0] && front[1..] == sources[1..][..i - 1];
      NoEarlierDeclaration(sources[1..], i - 1, name, vp);
      FirstSpecConcat(sources[0], Flatten(front[1..]), name, vp);
    }
  }

  /**
   * Precedence: a name not excluded takes the text of its earliest
   * declaration, by source order first and line order within a source,
   * whatever later sources or the supplemental list say.
   */
  lemma EarliestDeclarationWins(sources: seq<seq<string>>, extra: seq<string>, i: nat, j: nat, name: string, vp: VersionedParser)
    requires FirstDeclaredAt(sources, i, j, name, vp)
    requires name !in EXCLUDED_PACKAGES
    ensures name in Gathered(sources, extra, vp)
    ensures Gathered(sources, extra, vp)[name] == Parse(sources[i][j], vp).value.spec
  {
    var front, src, back := Flatten(sources[..i]), sources[i], Flatten(sources[i + 1..]);
    var lines := Flatten(sources) + extra;
    var spec := Parse(src[j], vp).value.spec;
    FlattenSplit(sources, i);
    FirstSpecIsEarliest(src, j, name, vp);
    NoEarlierDeclaration(sources, i, name, vp);
    FirstSpecConcat(front, src, name, vp);
    assert FirstSpec(front + src, name, vp) == Some(spec);
    FirstSpecConcat(front + src, back, name, vp);
    assert FirstSpec(Flatten(sources), name, vp) == Some(spec);
    FirstSpecConcat(Flatten(sources), extra, name, vp);
    assert FirstSpec(lines, name, vp) == Some(spec);
  }

  // ---------------------------------------------------------------------
  // The two quirks of the exclusion list and of empty names.

  /**
   * A name without `=`, which is what a requirement's name is, is never in
   * EXCLUDED_PACKAGES: the exclusion only fires for a git line whose egg
   * fragment spells out an entry such as `insightface==0.7.3`.
   */
  lemma BareNamesNeverExcluded(name: string)
    requires '=' !in name
    ensures name !in EXCLUDED_PACKAGES
  {
    assert EXCLUDED_PACKAGES[0][11] == '=' && EXCLUDED_PACKAGES[1][4] == '=' && EXCLUDED_PACKAGES[2][9] == '=';
  }

  /** Every source line whose parsed name holds no `=` puts that name in the dictionary. */
  lemma BareSourceNameGathered(sources: seq<seq<string>>, extra: seq<string>, i: nat, j: nat, vp: VersionedParser)
    requires i < |sources| && j < |sources[i]|
    requires Parse(sources[i][j], vp).Some? && '=' !in Parse(sources[i][j], vp).value.name
    ensures Parse(sources[i][j], vp).value.name in Gathered(sources, extra, vp)
  {
    BareNamesNeverExcluded(Parse(sources[i][j], vp).value.name);
    SourceNamesIncluded(sources, extra, i, j, vp);
  }

  /** The very first line of the first source is kept whenever its name is not excluded. */
  lemma FirstLineKept(sources: seq<seq<string>>, extra: seq<string>, name: string, spec: string, vp: VersionedParser)
    requires |sources| > 0 && |sources[0]| > 0
    requires Parse(sources[0][0], vp) == Some(Requirement(name, spec, Versioned))
    requires name !in EXCLUDED_PACKAGES
    ensures name in Gathered(sources, extra, vp) && Gathered(sources, extra, vp)[name] == spec
  {
    assert FirstDeclaredAt(sources, 0, 0, name, vp);
    EarliestDeclarationWins(sources, extra, 0, 0, name, vp);
  }

  /**
   * The case of BareSourceNameGathered that EXCLUDED_PACKAGES was written
   * for: a first line `insightface==0.7.3` is kept, with that text.
   */
  lemma ExcludedPackageStillGathered(sources: seq<seq<string>>, extra: seq<string>, vp: VersionedParser)
    requires |sources| > 0 && |sources[0]| > 0 && sources[0][0] == "insightface==0.7.3"
    requires vp("insightface==0.7.3") == Some(("insightface", "insightface==0.7.3"))
    ensures "insightface" in Gathered(sources, extra, vp)
    ensures Gathered(sources, extra, vp)["insightface"] == "insightface==0.7.3"
  {
    PlainLine("insightface==0.7.3", vp);
    BareNamesNeverExcluded("insightface");
    FirstLineKept(sources, extra, "insightface", "insightface==0.7.3", vp);
  }

  /** A git line with an empty egg fragment is entered under the empty name. */
  lemma EmptyNameGathered(sources: seq<seq<string>>, extra: seq<string>, i: nat, j: nat, vp: VersionedParser)
    requires i < |sources| && j < |sources[i]| && Declares(sources[i][j], "", vp)
    ensures "" in Gathered(sources, extra, vp)
  {
    BareNamesNeverExcluded("");
    SourceNamesIncluded(sources, extra, i, j, vp);
  }

  // ---------------------------------------------------------------------
  // The loops of `main`.

  /** The body of either loop of `main`, run over each of `lines` in turn. */
  method OfferEach(all: Requirements, lines: seq<string>, vp: VersionedParser) returns (all': Requirements)
    ensures all' == MergeLines(all, lines, vp)
  {
    all' := all;
    for j := 0 to |lines|
      invariant MergeLines(all', lines[j..], vp) == MergeLines(all, lines, vp)
    {
      assert lines[j..][0] == lines[j] && lines[j..][1..] == lines[j + 1..];
      var req := Parse(lines[j], vp);
      if req.Some? {
        var name := req.value.name;
        if name !in EXCLUDED_PACKAGES && name !in all' {
          all' := all'[name := req.value.spec];
        }
      }
    }
    assert lines[|lines|..] == [];
  }

  /** The lines of the first i + 1 sources are those of the first i, then source i. */
  lemma {:induction false} FlattenSnoc(sources: seq<seq<string>>, i: nat)
    requires i < |sources|
    ensures Flatten(sources[..i + 1]) == Flatten(sources[..i]) + sources[i]
  {
    FlattenSplit(sources[..i + 1], i);
    assert sources[..i + 1][..i] == sources[..i];
    assert sources[..i + 1][i + 1..] == [];
  }

  /** The aggregation loops of `main`, over sources given as their lines. */
  method GatherRequirements(sources: seq<seq<string>>, vp: VersionedParser) returns (all: Requirements)
    ensures all == Aggregate(sources, vp)
  {
    all := map[];
    for i := 0 to |sources|
      invariant all == MergeLines(map[], Flatten(sources[..i]), vp)
    {
      all := OfferEach(all, sources[i], vp);
      FlattenSnoc(sources, i);
      MergeConcat(map[], Flatten(sources[..i]), sources[i], vp);
    }
    assert sources[..|sources|] == sources;
    all := OfferEach(all, ADDITIONAL_PACKAGES, vp);
    MergeConcat(map[], Flatten(sources), ADDITIONAL_PACKAGES, vp);
  }
}
