/** The keyword test the app evidently meant, kept apart from the model of
    what it does: each keyword between two real `\b` word-boundary
    assertions, so that a keyword counts only as a whole word. The app's own
    classifier, with its literal backslash-b pairs, is
    `Categorizer.Categorize`; nothing in the model of the app uses this
    module. */
module Intended {
  import opened Text
  import opened Matching
  import opened Categorizer

  /** `\b{kw}\b`: the keyword, unescaped as in the app, between word boundaries. */
  function WholeWordPattern(kw: string): Pattern {
    Pattern(Compile(kw), true)
  }

  function WholeWordHit(lowered: string): bool {
    AnyKeyword(Keywords, lowered, WholeWordPattern)
  }

  /** `categorize_customer` with the whole-word keyword test: `Other`
      exactly for a non-blank name in whose lower-cased form some keyword
      occurs as a whole word. */
  function CategorizeWholeWord(name: Option<string>): (c: Category)
    ensures c == Other <==> name.Some? && !AllSpace(name.value)
                            && exists k :: 0 <= k < |Keywords| && Occurs(WholeWordPattern(Keywords[k]), Lower(name.value))
  {
    Decide(name, WholeWordHit)
  }

  /** A text that starts and ends with a word character matches its own
      whole-word pattern wherever it stands as a whole word. */
  lemma WholeWordMatch(kw: string, before: string, after: string)
    requires kw != [] && IsWordChar(kw[0]) && IsWordChar(kw[|kw| - 1])
    requires before == [] || !IsWordChar(before[|before| - 1])
    requires after == [] || !IsWordChar(after[0])
    ensures MatchesAt(WholeWordPattern(kw), before + kw + after, |before|)
  {
    var text := before + kw + after;
    var i := |before|;
    assert text[i..i + |kw|] == kw;
    CompiledMatchesItself(kw, text, i);
    assert text[i] == kw[0] && text[i + |kw| - 1] == kw[|kw| - 1];
    assert i > 0 ==> text[i - 1] == before[|before| - 1];
    assert i + |kw| < |text| ==> text[i + |kw|] == after[0];
  }

  /** A keyword that starts and ends with a word character is found whenever
      it stands in the text as a whole word. */
  lemma WholeWordKeywordFound(before: string, k: nat, after: string)
    requires k < |Keywords| && Keywords[k] != []
    requires IsWordChar(Keywords[k][0]) && IsWordChar(Keywords[k][|Keywords[k]| - 1])
    requires before == [] || !IsWordChar(before[|before| - 1])
    requires after == [] || !IsWordChar(after[0])
    ensures WholeWordHit(before + Keywords[k] + after)
  {
    WholeWordMatch(Keywords[k], before, after);
  }

  /** With the whole-word test, a name holding a keyword as a whole word is
      `Other`, whatever its word count. */
  lemma WholeWordKeywordIsOther(s: string, before: string, k: nat, after: string)
    requires k < |Keywords| && Keywords[k] != []
    requires IsWordChar(Keywords[k][0]) && IsWordChar(Keywords[k][|Keywords[k]| - 1])
    requires before == [] || !IsWordChar(before[|before| - 1])
    requires after == [] || !IsWordChar(after[0])
    requires Lower(s) == before + Keywords[k] + after
    ensures CategorizeWholeWord(Some(s)) == Other
  {
    WholeWordKeywordFound(before, k, after);
    assert Lower(s)[|before|] == Keywords[k][0];
    assert !IsSpace(s[|before|]);
  }

  /** The whole-word test finds the keyword in "Acme Corp". */
  lemma AcmeCorpWholeWord()
    ensures CategorizeWholeWord(Some("Acme Corp")) == Other
  {
    var s := "Acme Corp";
    assert Keywords[7] == "corp";
    assert Lower(s) == "acme " + Keywords[7] + "";
    WholeWordKeywordIsOther(s, "acme ", 7, "");
  }

  /** Negative control: "co" is not found inside "coleman". */
  lemma CoNotInsideColeman()
    ensures !Occurs(WholeWordPattern(Keywords[9]), "coleman")
  {
    var kw, text := Keywords[9], "coleman";
    assert kw == "co";
    var p := WholeWordPattern(kw);
    assert p.atoms == [Lit('c'), Lit('o')];
    forall i: nat
      ensures !MatchesAt(p, text, i)
    {
      if i == 0 {
        assert WordCharAt(text, 1) && WordCharAt(text, 2);
      } else if i < |text| {
        assert text[i] != 'c';
      }
    }
  }
}
