/** The fragment of Python's `re.search` the classifier exercises: a pattern
    made of literal characters and the `.` wildcard, optionally wrapped in
    `\b` word-boundary assertions, searched for at every position of a
    string. */
module Matching {

  /** One character position of a pattern. Without the DOTALL flag, Python's
      `.` matches any character except a newline. */
  datatype Atom = Lit(c: char) | AnyButNewline

  /** A sequence of atoms; `wordBounded` puts a `\b` before and after them. */
  datatype Pattern = Pattern(atoms: seq<Atom>, wordBounded: bool)

  predicate AtomMatches(a: Atom, c: char) {
    match a
    case Lit(d) => c == d
    case AnyButNewline => c != '\n'
  }

  /** A text interpolated into a pattern without `re.escape`: every `.` is a
      wildcard and every other character stands for itself. (Only `.` among
      Python's metacharacters occurs in the vocabulary this is used on.) */
  function Compile(text: string): (p: seq<Atom>)
    ensures |p| == |text|
    ensures forall k, c :: 0 <= k < |text| ==>
              (AtomMatches(p[k], c) <==> if text[k] == '.' then c != '\n' else c == text[k])
  {
    seq(|text|, k requires 0 <= k < |text| => if text[k] == '.' then AnyButNewline else Lit(text[k]))
  }

  /** Python's `\w`, restricted to ASCII: letters, digits and underscore. */
  predicate IsWordChar(c: char) {
    ('a' <= c <= 'z') || ('A' <= c <= 'Z') || ('0' <= c <= '9') || c == '_'
  }

  predicate WordCharAt(s: string, j: int) {
    0 <= j < |s| && IsWordChar(s[j])
  }

  /** `\b` at position `j`: exactly one of the characters on either side is a
      word character (outside the string counts as a non-word character). */
  predicate Boundary(s: string, j: int) {
    WordCharAt(s, j - 1) != WordCharAt(s, j)
  }

  /** The pattern matches `s` starting at index `i`. */
  predicate MatchesAt(p: Pattern, s: string, i: nat) {
    && i + |p.atoms| <= |s|
    && (forall k :: 0 <= k < |p.atoms| ==> AtomMatches(p.atoms[k], s[i + k]))
    && (p.wordBounded ==> Boundary(s, i) && Boundary(s, i + |p.atoms|))
  }

  /** `re.search(p, s) is not None`, as a statement about positions. */
  ghost predicate Occurs(p: Pattern, s: string) {
    exists i: nat :: MatchesAt(p, s, i)
  }

  /** Tries every start position from `i` on, as `re.search` does. */
  function SearchFrom(p: Pattern, s: string, i: nat): (found: bool)
    requires i <= |s|
    ensures found <==> exists j: nat :: i <= j && MatchesAt(p, s, j)
    decreases |s| - i
  {
    if MatchesAt(p, s, i) then true
    else if i == |s| then false
    else SearchFrom(p, s, i + 1)
  }

  function Search(p: Pattern, s: string): (found: bool)
    ensures found <==> Occurs(p, s)
  {
    SearchFrom(p, s, 0)
  }

  /** A compiled text matches itself wherever it occurs verbatim (a `.`
      stands on a `.`, which is not a newline). */
  lemma CompiledMatchesItself(text: string, s: string, i: nat)
    requires i + |text| <= |s| && s[i..i + |text|] == text
    ensures forall k :: 0 <= k < |text| ==> AtomMatches(Compile(text)[k], s[i + k])
  {
    forall k | 0 <= k < |text|
      ensures AtomMatches(Compile(text)[k], s[i + k])
    {
      assert s[i + k] == text[k];
    }
  }
}
