# Requirement gathering, modelled in Dafny

This project models the core of `scripts/gather_requirements.py`, the build
step that merges the `requirements.txt` files of every custom node into one
install manifest:

- `parse_requirement`: one manifest line becomes a lower-cased name and a
  requirement, or nothing (`Parser.Parse`).
- The merge in `main` walks the found files in order, then the lines of
  each file in order. It then walks `ADDITIONAL_PACKAGES`. Each parsed name
  is entered in the dictionary `all_requirements` unless it is in
  `EXCLUDED_PACKAGES` or already present (`Aggregator`).
- The output loop writes one line per entry, by ascending name (`Manifest.WriteManifest`).
- The last step of `find_requirements_files`, `sorted(list(set(found_files)))` (`Manifest.NormalizePaths`).

The library call `pkg_resources.Requirement.parse` cannot be seen. It is a
parameter `vp: string -> Option<(string, string)>`. It gives the library's
name and the `str()` rendering of a stripped line, or `None` where the
library raises. Everything proved holds for every such function. Reading a
file is likewise a parameter `contents: string -> seq<string>`, and
`Pipeline.SourcesOf` lists the lines of each found file, in path order, as
the sources the merge walks.

Modules: `Wrappers` (Option), `Text` (Python's `strip`, `lower`, substring
search, the `[^&]*` match), `Order` (Python's string order and `sorted` on
distinct strings), `Parser`, `Aggregator`, `Manifest`, `Pipeline`.

Behaviour reproduced as the code has it:

- `EXCLUDED_PACKAGES` holds versioned strings such as `insightface==0.7.3`.
  The test is literal list membership of the parsed name. So a bare name is
  never excluded (`Aggregator.BareNamesNeverExcluded`), and a line
  `insightface==0.7.3` is gathered (`Aggregator.ExcludedPackageStillGathered`).
  Only a git line whose egg fragment spells out a whole entry is excluded.
- A git line whose first `#egg=` ends the line is accepted under the empty
  name (`Parser.EmptyEggName`, `Aggregator.EmptyNameGathered`).
- The fallback git branch of the `except` clause is kept in `Parser.Parse`.
  `Parser.FallbackUnreachable` proves it never changes the result: whenever
  `#egg=` occurs, the first branch's pattern already matched.
- There is no remote source, no separate exclusion manifest and no final
  drop rule, and the output is not written atomically. None of these exist
  in the code.

## Model

| member | source | states |
|---|---|---|
| `Text.Strip` | scripts/gather_requirements.py:35 | `str.strip()`: only whitespace is cut, from both ends. The result is empty exactly when the line is all whitespace. Otherwise it neither starts nor ends with whitespace. |
| `Text.StripIdempotent` | scripts/gather_requirements.py:35 | Stripping a stripped line changes nothing. |
| `Text.Lower` | scripts/gather_requirements.py:47 | `str.lower()` keeps the length, lower-cases each character in place, and leaves no upper-case letter. |
| `Text.LowerOfLower` | scripts/gather_requirements.py:50 | Lower-casing a lower-case string is the identity. |
| `Text.LowerIdempotent` | scripts/gather_requirements.py:50 | Lower-casing twice is lower-casing once. |
| `Text.Find` | scripts/gather_requirements.py:41-42 | The index found is an occurrence of the pattern, and no earlier index is one. `None` means no index is an occurrence. |
| `Text.Contains` | scripts/gather_requirements.py:53 | Python's `in` on strings (here and at line 41) holds exactly when the pattern occurs at some index. |
| `Text.TakeUntil` | scripts/gather_requirements.py:42 | `[^&]*` taken greedily: a prefix holding no `&`, ended by `&` or the end of the text. |
| `Text.NotContainedWithout` | scripts/gather_requirements.py:41 | Text lacking a character of the marker does not contain the marker. |
| `Parser.EggName` | scripts/gather_requirements.py:42-44 | A match exists exactly when `#egg=` occurs. Group 1 starts right after the first `#egg=`, holds no `&`, and ends at an `&` or at the end. |
| `Parser.Parse` | scripts/gather_requirements.py:33-61 | Every accepted line has a lower-case name. Every accepted line is non-blank and not a comment after stripping. |
| `Parser.BlankOrCommentRejected` | scripts/gather_requirements.py:35-37 | A line that is blank or starts with `#` after stripping yields nothing, even `#egg=x`. |
| `Parser.GitLine` | scripts/gather_requirements.py:41-47 | A stripped line with `git+https` and `#egg=` is named after the lower-cased text between the first `#egg=` and the next `&` or the end. It renders as the whole stripped line. |
| `Parser.VersionedLine` | scripts/gather_requirements.py:41-61 | A non-blank, non-comment line lacking `git+https` or `#egg=` yields the library's name, lower-cased, with its rendering. It yields nothing when the library raises. |
| `Parser.PlainLine` | scripts/gather_requirements.py:35-50 | A line with no whitespace at its ends, no leading `#` and no `+`, whose library name is lower case, is returned exactly as the library reads it. |
| `Parser.FallbackUnreachable` | scripts/gather_requirements.py:51-61 | The result equals that of the same parser without the fallback git branch. |
| `Parser.NamesAreLowercase` | scripts/gather_requirements.py:47-58 | Lower-casing a returned name again leaves it unchanged. |
| `Parser.EmptyEggName` | scripts/gather_requirements.py:42-47 | A git line whose first `#egg=` ends it is accepted under the empty name. |
| `Order.BelowIsLexicographic` | scripts/gather_requirements.py:116 | Python's `<` on strings, which `sorted` uses here and at line 75: one string is below another exactly when it is a proper prefix of it, or the first differing character is smaller. |
| `Order.SortedSet` | scripts/gather_requirements.py:116 | `sorted` over distinct strings is strictly ascending in Python's string order. It holds exactly the given elements, as many as there are. |
| `Order.AscendingUnique` | scripts/gather_requirements.py:75 | Two strictly ascending sequences with the same elements are equal, so the sorted result is unique. |
| `Aggregator.Offer` | scripts/gather_requirements.py:92-101 | One loop pass: a name is added exactly when the line declares it, it is not excluded, and it is absent. Existing entries keep their text. A new entry carries the line's text. |
| `Aggregator.MergeLines` | scripts/gather_requirements.py:91-101 | The loop over lines is first-wins: an entry, once present, keeps its text. Every entry it adds is a non-excluded name that some line declares. |
| `Aggregator.Gathered` | scripts/gather_requirements.py:88-111 | The dictionary built from the sources and then a supplemental list equals the reference dictionary of all those lines. |
| `Aggregator.Aggregate` | scripts/gather_requirements.py:79-113 | `all_requirements` before output is the reference dictionary of the source lines followed by `ADDITIONAL_PACKAGES`. |
| `Aggregator.FlattenHoldsEveryLine` | scripts/gather_requirements.py:88-91 | Line j of file i is visited, right after the lines of all earlier files. |
| `Aggregator.Names` | scripts/gather_requirements.py:88-111 | The names declared are exactly those some line parses to. |
| `Aggregator.FirstSpec` | scripts/gather_requirements.py:97-101 | A first declaration exists exactly when some line declares the name. |
| `Aggregator.FirstSpecIsEarliest` | scripts/gather_requirements.py:97-101 | The earliest declaring line supplies the first text. |
| `Aggregator.MergeCharacterized` | scripts/gather_requirements.py:88-111 | Merging keeps every existing entry unchanged. It adds exactly the non-excluded declared names that are absent, each with its first declaration. |
| `Aggregator.MergeIsReference` | scripts/gather_requirements.py:88-111 | From an empty dictionary, the merge equals the reference dictionary: each non-excluded declared name maps to its first declaration. |
| `Aggregator.MergeConcat` | scripts/gather_requirements.py:88-111 | Merging the sources, then the supplemental list into the same dictionary, is merging their concatenation. |
| `Aggregator.ExclusionDominates` | scripts/gather_requirements.py:95-110 | No key of the final dictionary is in `EXCLUDED_PACKAGES`. |
| `Aggregator.KeysAreDeclared` | scripts/gather_requirements.py:88-111 | Every key was declared by a source line or a supplemental package. |
| `Aggregator.SourceNamesIncluded` | scripts/gather_requirements.py:88-101 | Every non-excluded name a source line declares is a key. |
| `Aggregator.SupplementalNamesIncluded` | scripts/gather_requirements.py:106-111 | Every non-excluded supplemental name is a key. |
| `Aggregator.SupplementNeverOverrides` | scripts/gather_requirements.py:106-111 | Supplemental packages never change an entry from a source. They add only absent, non-excluded names, with the first supplemental text. |
| `Aggregator.EarliestDeclarationWins` | scripts/gather_requirements.py:97-101 | A non-excluded name takes the text of its earliest declaration, by source order and then line order. Later sources and the supplemental list do not matter. |
| `Aggregator.BareNamesNeverExcluded` | scripts/gather_requirements.py:27-31 | A name without `=` is never in `EXCLUDED_PACKAGES`. |
| `Aggregator.BareSourceNameGathered` | scripts/gather_requirements.py:92-101 | Every source line whose parsed name holds no `=` puts that name in the dictionary: the exclusion never applies to it. |
| `Aggregator.ExcludedPackageStillGathered` | scripts/gather_requirements.py:95-96 | A first line `insightface==0.7.3` that the library names `insightface` is gathered, with that text. |
| `Aggregator.EmptyNameGathered` | scripts/gather_requirements.py:93-101 | A line declaring the empty name puts the empty name in the dictionary. |
| `Aggregator.OfferEach` | scripts/gather_requirements.py:91-101 | The loop over a list of lines leaves the dictionary that merging those lines specifies. |
| `Aggregator.GatherRequirements` | scripts/gather_requirements.py:88-111 | Both loops of `main` build exactly `Aggregate(sources)`: the sources in order, then `ADDITIONAL_PACKAGES`. |
| `Manifest.WriteManifest` | scripts/gather_requirements.py:115-117 | One line per entry. Line i is the text of the i-th name in ascending order. |
| `Manifest.ManifestOrder` | scripts/gather_requirements.py:116-117 | Each entry's text is written at the position of its name. Every smaller name comes before it and every larger name after it. |
| `Manifest.NormalizePaths` | scripts/gather_requirements.py:75 | `sorted(list(set(found)))` is strictly ascending and holds exactly the found paths. |
| `Manifest.NormalizePathsOrderInsensitive` | scripts/gather_requirements.py:75 | The result depends only on which paths were found, not on their order or repetition. |
| `Manifest.NormalizePathsIdempotent` | scripts/gather_requirements.py:75 | Normalising twice is normalising once. |
| `Pipeline.GatherAndWrite` | scripts/gather_requirements.py:78-117 | The output has one line per entry of the dictionary built from the files in path order. The lines follow ascending name order. |
| `Pipeline.SmallestPathWins` | scripts/gather_requirements.py:75-101 | Among files, a non-excluded name takes its text from the file with the smallest path that declares it, from that file's first declaring line. |

## Left out

- Directory walking and the existence check in `find_requirements_files` (lines 66-72) are filesystem I/O. The model starts from the list of paths found.
- Opening and reading files, and the per-file `try/except` (lines 89-103), are I/O. A source is the sequence of lines read from it. A file that fails part-way contributes the lines read before the failure, and an unreadable file contributes none.
- `pkg_resources.Requirement.parse` and its `str()` rendering are a foreign library. They are the parameter `vp`.
- The regular-expression engine is not modelled. The search for `#egg=([^&]*)` is stated directly on strings (`Parser.EggName`).
- Text.Lower: lower-cases the ASCII letters `A`-`Z` only. Python's `str.lower()` also maps other Unicode letters, and that mapping is not modelled.
- The diagnostics printed to standard error (lines 60, 66, 84-86, 103, 119) are advisory output.
- Writing the output file (lines 114-117) is not modelled. The model produces the sequence of lines, without their trailing newlines.
