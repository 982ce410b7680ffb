/**
 * `parse_requirement`: one manifest line to a (lower-cased name,
 * requirement) pair, or to nothing.
 */
module Parser {
  import opened Wrappers
  import opened Text

  /**
   * `pkg_resources.Requirement.parse` followed by reading `.name` and
   * rendering with `str()`: the library's name for the requirement and its
   * canonical text, or `None` where the library raises.
   */
  type VersionedParser = string -> Option<(string, string)>

  datatype Kind = Versioned | GitReference

  /** A parsed requirement: the dictionary key, the text written to the output, and which syntax it came from. */
  datatype Requirement = Requirement(name: string, spec: string, kind: Kind)

  const GIT_MARKER: string := "git+https"
  const EGG_MARKER: string := "#egg="

  /** Group 1 of the leftmost match of `#egg=([^&]*)` in `s`, or `None` when the regex finds no match. */
  function EggName(s: string): (r: Option<string>)
    ensures r.Some? <==> Contains(s, EGG_MARKER)
    ensures r.Some? ==>
      var start := Find(s, EGG_MARKER).value + |EGG_MARKER|;
      && start + |r.value| <= |s|
      && s[start..start + |r.value|] == r.value
      && '&' !in r.value
      && (start + |r.value| == |s| || s[start + |r.value|] == '&')
  {
    match Find(s, EGG_MARKER)
    case None => None
    case Some(i) =>
      var name := TakeUntil(s[i + |EGG_MARKER|..], '&');
      assert s[i + |EGG_MARKER|..][..|name|] == s[i + |EGG_MARKER|..i + |EGG_MARKER| + |name|];
      Some(name)
  }

  /**
   * `parse_requirement(line)`, where `vp` stands for the library parser.
   * The `except` branch is kept as written: it is reached when `vp` fails,
   * and then rebuilds a git requirement if the line has both markers.
   */
  function Parse(line: string, vp: VersionedParser): (r: Option<Requirement>)
    ensures r.Some? ==> IsLower(r.value.name)
    ensures r.Some? ==> Strip(line) != [] && Strip(line)[0] != '#'
  {
    var s := Strip(line);
    if s == [] || s[0] == '#' then None
    else if Contains(s, GIT_MARKER) && EggName(s).Some? then
      Some(Requirement(Lower(EggName(s).value), s, GitReference))
    else
      match vp(s)
      case Some((name, rendering)) => Some(Requirement(Lower(name), rendering, Versioned))
      case None =>
        if Contains(s, GIT_MARKER) && Contains(s, EGG_MARKER) then
          match EggName(s)
          case Some(egg) => Some(Requirement(Lower(egg), s, GitReference))
          case None => None
        else
          None
  }

  /** `parse_requirement` without its fallback branch. */
  function ParseWithoutFallback(line: string, vp: VersionedParser): Option<Requirement>
  {
    var s := Strip(line);
    if s == [] || s[0] == '#' then None
    else if Contains(s, GIT_MARKER) && EggName(s).Some? then
      Some(Requirement(Lower(EggName(s).value), s, GitReference))
    else
      match vp(s)
      case Some((name, rendering)) => Some(Requirement(Lower(name), rendering, Versioned))
      case None => None
  }

  /**
   * The fallback git branch never decides anything: a line that reaches it
   * with both markers already took the first git branch, because the
   * pattern `#egg=([^&]*)` matches wherever `#egg=` occurs.
   */
  lemma FallbackUnreachable(line: string, vp: VersionedParser)
    ensures Parse(line, vp) == ParseWithoutFallback(line, vp)
  {
  }

  /** Blank lines and comment lines, judged after stripping, yield nothing, whatever else they contain. */
  lemma BlankOrCommentRejected(line: string, vp: VersionedParser)
    requires Strip(line) == [] || Strip(line)[0] == '#'
    ensures Parse(line, vp).None?
  {
  }

  /**
   * A stripped line holding `git+https` and `#egg=` is named after the text
   * between the first `#egg=` and the next `&` (or the end), lower-cased,
   * and is rendered as the whole stripped line.
   */
  lemma GitLine(line: string, vp: VersionedParser)
    requires var s := Strip(line); s != [] && s[0] != '#' && Contains(s, GIT_MARKER) && Contains(s, EGG_MARKER)
    ensures var s := Strip(line);
      var start := Find(s, EGG_MARKER).value + |EGG_MARKER|;
      Parse(line, vp) == Some(Requirement(Lower(TakeUntil(s[start..], '&')), s, GitReference))
  {
  }

  /**
   * A non-blank, non-comment line lacking `git+https` or `#egg=` is decided
   * by the library parser alone: its name, lower-cased, and its rendering,
   * or nothing where the library raises.
   */
  lemma VersionedLine(line: string, vp: VersionedParser)
    requires var s := Strip(line); s != [] && s[0] != '#' && !(Contains(s, GIT_MARKER) && Contains(s, EGG_MARKER))
    ensures Parse(line, vp) ==
      match vp(Strip(line))
      case Some((n, r)) => Some(Requirement(Lower(n), r, Versioned))
      case None => None
  {
  }

  /**
   * A line with no whitespace at either end, not a comment and without a
   * `+` (so without `git+https`), whose library name is already lower case,
   * is returned exactly as the library reads it.
   */
  lemma PlainLine(line: string, vp: VersionedParser)
    requires line != [] && !IsSpace(line[0]) && !IsSpace(line[|line| - 1]) && line[0] != '#' && '+' !in line
    requires vp(line).Some? && IsLower(vp(line).value.0)
    ensures Parse(line, vp) == Some(Requirement(vp(line).value.0, vp(line).value.1, Versioned))
  {
    StripNoSpaceEnds(line);
    NotContainedWithout(line, GIT_MARKER, '+');
    LowerOfLower(vp(line).value.0);
    VersionedLine(line, vp);
  }

  /** Every returned name is already lower case: lower-casing it again changes nothing. */
  lemma NamesAreLowercase(line: string, vp: VersionedParser)
    requires Parse(line, vp).Some?
    ensures Lower(Parse(line, vp).value.name) == Parse(line, vp).value.name
  {
    LowerOfLower(Parse(line, vp).value.name);
  }

  /** A git line whose first `#egg=` ends it is still accepted, under the empty name. */
  lemma EmptyEggName(line: string, vp: VersionedParser)
    requires var s := Strip(line); s != [] && s[0] != '#' && Contains(s, GIT_MARKER) && Contains(s, EGG_MARKER)
    requires Find(Strip(line), EGG_MARKER).value + |EGG_MARKER| == |Strip(line)|
    ensures Parse(line, vp) == Some(Requirement("", Strip(line), GitReference))
  {
  }
}
