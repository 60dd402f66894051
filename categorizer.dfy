/** The customer-name classifier of the categorizer app: the vocabulary of
    organisation keywords, `categorize_customer`, and the per-row map that
    fills the `Category` column of the uploaded sheet. */
module Categorizer {
  import opened Text
  import opened Matching

  /** A sheet cell: `None` for a cell pandas reports as missing. */
  datatype Option<T> = None | Some(value: T)

  /** The three results of `categorize_customer`. */
  datatype Category = NeedsReview | Other | Individual

  /** The string the app writes into the `Category` column. */
  function Label(c: Category): (shown: string)
    ensures shown == "Needs Review" || shown == "Other" || shown == "Individual"
  {
    match c
    case NeedsReview => "Needs Review"
    case Other => "Other"
    case Individual => "Individual"
  }

  /** Different categories are written differently, so the column tells the
      three outcomes apart. */
  lemma LabelDistinct(a: Category, b: Category)
    ensures Label(a) == Label(b) ==> a == b
  {
  }

  /** The organisation keywords of the app, in its order, in five runs. */
  const LegalForms: seq<string> := [
    "inc", "inc.", "llc", "l.l.c.", "ltd", "ltd.", "limited", "corp", "corporation", "co",
    "co.", "pte", "pvt", "llp", "gmbh", "ag", "nv", "bv", "kk", "oy", "ab", "plc", "s.a",
    "s.a.s", "sa", "sarl", "sl", "aps", "as", "kft", "pt", "sdn", "bhd"
  ]

  const Academia: seq<string> := [
    "university", "uni", "institute", "inst", "college", "academy", "school", "faculty",
    "dept", "department", "cnrs", "research", "laboratory", "lab", "education", "educational",
    "engineering", "polytechnic", "polytech"
  ]

  const ResearchAndPublicSector: seq<string> := [
    "centre", "center", "r&d", "science", "sciences", "technical", "technological",
    "technology", "innovation", "biotech", "medtech", "ai", "ml", "cybernetics", "govt",
    "government", "ngo", "n.g.o", "nonprofit", "non-profit", "ministry", "embassy",
    "consulate", "office", "admin", "administration", "secretariat", "authority", "commission"
  ]

  const Business: seq<string> := [
    "agency", "bureau", "solutions", "consulting", "consultants", "advisory", "advisors",
    "partners", "partnership", "associates", "services", "ventures", "enterprises",
    "management", "finance", "capital", "holdings", "intl", "international", "global",
    "industries", "logistics", "trading", "procurement", "group", "store", "shop", "bookshop",
    "library", "distribution", "distributors", "outlet", "media", "publications", "books",
    "press"
  ]

  const Associations: seq<string> := [
    "foundation", "fondation", "fondazione", "trust", "union", "syndicate", "board", "chamber",
    "association", "club", "society", "network", "cooperative", "federation", "council",
    "committee", "coalition", "initiative", "team", "division", "branch", "unit", "project",
    "consortium", "alliance", "hub", "taskforce", "incubator", "accelerator"
  ]

  const Keywords: seq<string> := LegalForms + Academia + ResearchAndPublicSector + Business + Associations

  /** The regex the app builds for keyword `kw`. In the raw f-string `\\b`
      is an escaped backslash followed by `b`, so the regex asks for the two
      characters `\` and `b` on both sides of the keyword, not for a word
      boundary; the keyword is not escaped, so its dots are wildcards. */
  function KeywordPattern(kw: string): (p: Pattern)
    ensures forall s: string, i: nat :: MatchesAt(p, s, i) <==> BackslashBAround(kw, s, i)
  {
    var p := Pattern([Lit('\\'), Lit('b')] + Compile(kw) + [Lit('\\'), Lit('b')], false);
    BackslashBPatternMeaning(kw, p);
    p
  }

  /** `any(re.search(pattern(kw), text) for kw in kws)`. */
  function AnyKeyword(kws: seq<string>, text: string, pattern: string -> Pattern): (hit: bool)
    ensures hit <==> exists k :: 0 <= k < |kws| && Occurs(pattern(kws[k]), text)
  {
    if kws == [] then false
    else
      var rest := AnyKeyword(kws[1..], text, pattern);
      assert forall k :: 1 <= k < |kws| ==> kws[k] == kws[1..][k - 1];
      Search(pattern(kws[0]), text) || rest
  }

  /** The keyword test of the app, applied to the lower-cased name: it hits
      exactly when some keyword stands between two literal `\\b` pairs. */
  function KeywordHit(lowered: string): (hit: bool)
    ensures hit <==> BackslashBKeyword(lowered)
  {
    AnyKeyword(Keywords, lowered, KeywordPattern)
  }

  /** `pd.isna(name) or not str(name).strip()`. */
  function IsBlank(name: Option<string>): (blank: bool)
    ensures blank <==> name.None? || AllSpace(name.value)
  {
    if name.None? then true
    else
      StripEmptyIffBlank(name.value);
      Strip(name.value) == []
  }

  /** The decision sequence of `categorize_customer`, with the keyword test
      it applies to the lower-cased name as a parameter. Blank input needs
      review; otherwise a keyword hit wins over the word count, and the word
      count of the name (lower-casing keeps it) separates an individual from
      a name that needs review. */
  function Decide(name: Option<string>, keywordHit: string -> bool): (c: Category)
    ensures name.None? ==> c == NeedsReview
    ensures name.Some? ==>
              (c == Other <==> !AllSpace(name.value) && keywordHit(Lower(name.value)))
    ensures name.Some? ==>
              (c == Individual <==> !keywordHit(Lower(name.value)) && 1 <= |Split(name.value)| <= 3)
    ensures name.Some? ==>
              (c == NeedsReview <==> AllSpace(name.value)
                                     || (!keywordHit(Lower(name.value)) && |Split(name.value)| > 3))
  {
    if IsBlank(name) then NeedsReview
    else
      var lowered := Lower(name.value);
      var wordCount := |Split(lowered)|;
      SplitEmptyIffBlank(name.value);
      LowerKeepsWordCount(name.value);
      if keywordHit(lowered) then Other
      else if wordCount <= 3 then Individual
      else NeedsReview
  }

  /** `categorize_customer` as the app runs it: `Other` exactly for a
      non-blank name whose lower-cased form holds a keyword between literal
      `\\b` pairs. */
  function Categorize(name: Option<string>): (c: Category)
    ensures c == Other <==> name.Some? && !AllSpace(name.value) && BackslashBKeyword(Lower(name.value))
  {
    Decide(name, KeywordHit)
  }

  /** `df['Customer Name'].apply(categorize_customer)`: one category per row,
      in row order. */
  function CategorizeColumn(rows: seq<Option<string>>): (categories: seq<Category>)
    ensures |categories| == |rows|
    ensures forall i :: 0 <= i < |rows| ==> categories[i] == Categorize(rows[i])
  {
    if rows == [] then []
    else
      assert forall i :: 1 <= i < |rows| ==> rows[1..][i - 1] == rows[i];
      [Categorize(rows[0])] + CategorizeColumn(rows[1..])
  }

  // ---------------------------------------------------------------------
  // The keyword regex, stated directly on the text

  /** `kw` matches `s` at `j` character by character, a `.` in `kw` standing
      for any character but a newline. */
  predicate KeywordAt(kw: string, s: string, j: nat)
    requires j + |kw| <= |s|
  {
    forall k :: 0 <= k < |kw| ==> if kw[k] == '.' then s[j + k] != '\n' else s[j + k] == kw[k]
  }

  /** `s` holds, from index `i`, a backslash, `b`, the keyword, a backslash, `b`. */
  predicate BackslashBAround(kw: string, s: string, i: nat) {
    && i + |kw| + 4 <= |s|
    && s[i] == '\\' && s[i + 1] == 'b'
    && KeywordAt(kw, s, i + 2)
    && s[i + 2 + |kw|] == '\\' && s[i + 3 + |kw|] == 'b'
  }

  /** Some keyword stands in `s` between two literal `\\b` pairs. */
  ghost predicate BackslashBKeyword(s: string) {
    exists k: nat, i: nat :: k < |Keywords| && BackslashBAround(Keywords[k], s, i)
  }

  /** The backslash-b regex of `kw` matches exactly where `kw` stands between
      two literal `\\b` pairs. */
  lemma BackslashBPatternMeaning(kw: string, p: Pattern)
    requires p == Pattern([Lit('\\'), Lit('b')] + Compile(kw) + [Lit('\\'), Lit('b')], false)
    ensures forall s: string, i: nat :: MatchesAt(p, s, i) <==> BackslashBAround(kw, s, i)
  {
    forall s: string, i: nat
      ensures MatchesAt(p, s, i) <==> BackslashBAround(kw, s, i)
    {
      BackslashBPatternAt(kw, p, s, i);
    }
  }

  lemma BackslashBPatternAt(kw: string, p: Pattern, s: string, i: nat)
    requires p == Pattern([Lit('\\'), Lit('b')] + Compile(kw) + [Lit('\\'), Lit('b')], false)
    ensures MatchesAt(p, s, i) <==> BackslashBAround(kw, s, i)
  {
    var atoms := p.atoms;
    var n := |kw|;
    assert |atoms| == n + 4;
    if i + n + 4 <= |s| {
      assert atoms[0] == Lit('\\') && atoms[1] == Lit('b');
      assert atoms[n + 2] == Lit('\\') && atoms[n + 3] == Lit('b');
      assert forall k :: 2 <= k < n + 2 ==> atoms[k] == Compile(kw)[k - 2];
      if MatchesAt(p, s, i) {
        MatchedBackslashB(kw, p, s, i);
      }
      if BackslashBAround(kw, s, i) {
        forall k | 0 <= k < |atoms|
          ensures AtomMatches(atoms[k], s[i + k])
        {
        }
      }
    }
  }

  lemma MatchedBackslashB(kw: string, p: Pattern, s: string, i: nat)
    requires p == Pattern([Lit('\\'), Lit('b')] + Compile(kw) + [Lit('\\'), Lit('b')], false)
    requires MatchesAt(p, s, i)
    ensures BackslashBAround(kw, s, i)
  {
    var atoms := p.atoms;
    var n := |kw|;
    assert atoms[0] == Lit('\\') && atoms[1] == Lit('b');
    assert atoms[n + 2] == Lit('\\') && atoms[n + 3] == Lit('b');
    assert AtomMatches(atoms[0], s[i]) && AtomMatches(atoms[1], s[i + 1]);
    assert AtomMatches(atoms[n + 2], s[i + (n + 2)]) && AtomMatches(atoms[n + 3], s[i + (n + 3)]);
    forall k | 0 <= k < n
      ensures if kw[k] == '.' then s[i + 2 + k] != '\n' else s[i + 2 + k] == kw[k]
    {
      assert atoms[k + 2] == Compile(kw)[k];
      assert AtomMatches(atoms[k + 2], s[i + (k + 2)]);
    }
  }

  /** Because of the literal backslash the regex needs, a name without a
      backslash never hits a keyword once lower-cased. */
  lemma NoBackslashNoKeywordHit(s: string)
    requires '\\' !in s
    ensures !KeywordHit(Lower(s))
  {
    assert '\\' !in Lower(s);
    NoBackslashNoKeyword(Lower(s));
  }

  /** Text without a backslash never matches the regex of any keyword. */
  lemma NoBackslashNoKeyword(s: string)
    requires '\\' !in s
    ensures !KeywordHit(s)
  {
    forall k | 0 <= k < |Keywords|
      ensures !Occurs(KeywordPattern(Keywords[k]), s)
    {
      var p := KeywordPattern(Keywords[k]);
      forall i: nat
        ensures !MatchesAt(p, s, i)
      {
        assert p.atoms[0] == Lit('\\');
        if i < |s| {
          assert s[i] != '\\';
        }
      }
    }
  }

  // ---------------------------------------------------------------------
  // The decision sequence

  /** The word count the `Individual` branch compares is never zero. */
  lemma IndividualHasWords(s: string, keywordHit: string -> bool)
    requires Decide(Some(s), keywordHit) == Individual
    ensures 1 <= |Split(Lower(s))| <= 3
  {
    LowerKeepsWordCount(s);
  }

  /** Only the lower-cased name matters. */
  lemma CategorizeIgnoresCase(s: string)
    ensures Categorize(Some(Lower(s))) == Categorize(Some(s))
  {
    LowerIdempotent(s);
    StripEmptyIffBlank(s);
    StripEmptyIffBlank(Lower(s));
  }

  /** As written, a name with no backslash in it is never `Other`. */
  lemma NoBackslashNeverOther(s: string)
    requires '\\' !in s
    ensures Categorize(Some(s)) != Other
  {
    NoBackslashNoKeywordHit(s);
  }

  /** Each row is classified on its own: classifying two blocks of rows
      and joining the results is classifying the joined rows. */
  lemma ColumnAppend(a: seq<Option<string>>, b: seq<Option<string>>)
    ensures CategorizeColumn(a + b) == CategorizeColumn(a) + CategorizeColumn(b)
  {
    var joined, parts := CategorizeColumn(a + b), CategorizeColumn(a) + CategorizeColumn(b);
    forall i | 0 <= i < |joined|
      ensures joined[i] == parts[i]
    {
      if i < |a| {
        assert (a + b)[i] == a[i];
      } else {
        assert (a + b)[i] == b[i - |a|];
      }
    }
  }

  // ---------------------------------------------------------------------
  // Concrete cases

  /** "Acme Corp" holds a keyword as a whole word, yet as written it is
      classified `Individual`: nothing in it is preceded by a backslash. */
  lemma AcmeCorpAsWritten()
    ensures Categorize(Some("Acme Corp")) == Individual
  {
    PlainTwoPartsIndividual("Acme Corp", 4);
  }

  lemma PlainTwoPartsIndividual(s: string, k: nat)
    requires '\\' !in s
    requires 0 < k < |s| - 1 && IsSpace(s[k]) && NoSpace(s[..k]) && NoSpace(s[k + 1..])
    ensures Categorize(Some(s)) == Individual
  {
    SplitTwoWords(s, k);
    PlainFewWordsIndividual(s);
  }

  /** As written, a name of one to three words without a backslash is an
      individual, whatever the words are. */
  lemma PlainFewWordsIndividual(s: string)
    requires '\\' !in s && 1 <= |Split(s)| <= 3
    ensures Categorize(Some(s)) == Individual
  {
    NoBackslashNoKeywordHit(s);
  }

  /** The app does report `Other` when the keyword sits between literal
      backslash-b pairs. */
  lemma BackslashKeywordIsOther()
    ensures Categorize(Some("Acme \\bCorp\\b")) == Other
  {
    var s := "Acme \\bCorp\\b";
    var lowered := Lower(s);
    var kw := Keywords[7];
    assert kw == "corp";
    assert lowered[5] == '\\' && lowered[6] == 'b';
    assert lowered[7] == 'c' && lowered[8] == 'o' && lowered[9] == 'r' && lowered[10] == 'p';
    assert lowered[11] == '\\' && lowered[12] == 'b';
    assert KeywordAt(kw, lowered, 7);
    assert BackslashBAround(kw, lowered, 5);
    assert BackslashBKeyword(lowered);
    assert !IsSpace(s[0]);
  }
}
