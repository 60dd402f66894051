/** Python string operations the classifier relies on: `str.strip()` and
    `str.split()` called without arguments (both cut on Python's whitespace
    set), and lower-casing, restricted here to ASCII letters. */
module Text {

  /** Python's whitespace set for `strip()`/`split()`: the ASCII controls
      0x09-0x0D and 0x1C-0x1F, the space, and the Unicode separators
      Python counts as whitespace. */
  predicate IsSpace(c: char) {
    var n := c as int;
    (0x09 <= n <= 0x0D) || (0x1C <= n <= 0x20) || n == 0x85 || n == 0xA0
    || n == 0x1680 || (0x2000 <= n <= 0x200A) || n == 0x2028 || n == 0x2029
    || n == 0x202F || n == 0x205F || n == 0x3000
  }

  predicate AllSpace(s: string) {
    forall i :: 0 <= i < |s| ==> IsSpace(s[i])
  }

  predicate NoSpace(s: string) {
    forall i :: 0 <= i < |s| ==> !IsSpace(s[i])
  }

  /** Number of whitespace characters at the front of `s`. */
  function LeadingSpaces(s: string): (n: nat)
    ensures n <= |s|
    ensures AllSpace(s[..n])
    ensures n < |s| ==> !IsSpace(s[n])
  {
    if s != [] && IsSpace(s[0]) then
      var m := LeadingSpaces(s[1..]);
      assert s[..1 + m] == [s[0]] + s[1..][..m];
      1 + m
    else 0
  }

  /** Number of whitespace characters at the back of `s`. */
  function TrailingSpaces(s: string): (n: nat)
    ensures n <= |s|
    ensures AllSpace(s[|s| - n..])
    ensures n < |s| ==> !IsSpace(s[|s| - 1 - n])
  {
    if s != [] && IsSpace(s[|s| - 1]) then
      var init := s[..|s| - 1];
      var m := TrailingSpaces(init);
      assert s[|s| - (1 + m)..] == init[|init| - m..] + [s[|s| - 1]];
      1 + m
    else 0
  }

  /** Length of the run of non-whitespace characters at the front of `s`. */
  function WordLength(s: string): (n: nat)
    ensures n <= |s|
    ensures NoSpace(s[..n])
    ensures n < |s| ==> IsSpace(s[n])
  {
    if s != [] && !IsSpace(s[0]) then
      var m := WordLength(s[1..]);
      assert s[..1 + m] == [s[0]] + s[1..][..m];
      1 + m
    else 0
  }

  /** Python `s.strip()`: drops leading and trailing whitespace. */
  function Strip(s: string): (r: string)
    ensures |r| <= |s|
    ensures r != [] ==> !IsSpace(r[0]) && !IsSpace(r[|r| - 1])
    ensures exists i :: 0 <= i <= |s| - |r| && s[i..i + |r|] == r
                        && AllSpace(s[..i]) && AllSpace(s[i + |r|..])
  {
    var i := LeadingSpaces(s);
    var t := s[i..];
    var j := |t| - TrailingSpaces(t);
    var r := t[..j];
    assert s[i..i + |r|] == r;
    assert s[i + |r|..] == t[j..];
    r
  }

  /** Python `s.split()`: the maximal runs of non-whitespace characters, in order. */
  function Split(s: string): (words: seq<string>)
    ensures forall k :: 0 <= k < |words| ==> words[k] != [] && NoSpace(words[k])
    decreases |s|
  {
    var t := s[LeadingSpaces(s)..];
    if t == [] then []
    else
      var n := WordLength(t);
      [t[..n]] + Split(t[n..])
  }

  /** Reference definition: the non-whitespace characters of `s`, in order. */
  function RemoveSpaces(s: string): (r: string)
    ensures |r| <= |s|
    ensures NoSpace(r)
    ensures r == [] <==> AllSpace(s)
  {
    if s == [] then []
    else
      var rest := RemoveSpaces(s[1..]);
      if IsSpace(s[0]) then
        assert AllSpace(s) <==> AllSpace(s[1..]) by {
          assert forall i :: 0 < i < |s| ==> s[i] == s[1..][i - 1];
        }
        rest
      else [s[0]] + rest
  }

  /** Reference definition of the word count: how many characters start a word,
      scanning left to right; `inWord` says whether the previous character was
      part of a word. */
  function CountWordStarts(s: string, inWord: bool): nat {
    if s == [] then 0
    else if IsSpace(s[0]) then CountWordStarts(s[1..], false)
    else (if inWord then 0 else 1) + CountWordStarts(s[1..], true)
  }

  function Concat(words: seq<string>): string {
    if words == [] then [] else words[0] + Concat(words[1..])
  }

  function LowerEach(words: seq<string>): (r: seq<string>)
    ensures |r| == |words|
    ensures forall k :: 0 <= k < |words| ==> r[k] == Lower(words[k])
  {
    if words == [] then [] else [Lower(words[0])] + LowerEach(words[1..])
  }

  function LowerChar(c: char): char {
    if 'A' <= c <= 'Z' then (c as int + 32) as char else c
  }

  /** `s.lower()`, restricted to the ASCII letters A-Z: a copy of `s` with
      each upper-case letter replaced by its lower-case one. */
  function Lower(s: string): (r: string)
    ensures |r| == |s|
    ensures forall i :: 0 <= i < |s| ==>
              if 'A' <= s[i] <= 'Z' then r[i] as int == s[i] as int + 32 else r[i] == s[i]
    ensures forall i :: 0 <= i < |r| ==> !('A' <= r[i] <= 'Z')
    ensures forall i :: 0 <= i < |s| ==> (IsSpace(r[i]) <==> IsSpace(s[i]))
    ensures forall i :: 0 <= i < |s| ==> (r[i] == '\\' <==> s[i] == '\\')
  {
    seq(|s|, i requires 0 <= i < |s| => LowerChar(s[i]))
  }

  // ---------------------------------------------------------------------
  // Lemmas

  lemma {:induction false} RemoveSpacesAppend(a: string, b: string)
    ensures RemoveSpaces(a + b) == RemoveSpaces(a) + RemoveSpaces(b)
    decreases |a|
  {
    if a == [] {
      assert a + b == b;
    } else {
      assert (a + b)[0] == a[0];
      assert (a + b)[1..] == a[1..] + b;
      RemoveSpacesAppend(a[1..], b);
    }
  }

  lemma {:induction false} RemoveSpacesKeepsWord(w: string)
    requires NoSpace(w)
    ensures RemoveSpaces(w) == w
    decreases |w|
  {
    if w != [] {
      RemoveSpacesKeepsWord(w[1..]);
      assert w == [w[0]] + w[1..];
    }
  }

  /** `strip()` removes whitespace only: no other character is lost. */
  lemma StripDropsOnlySpace(s: string)
    ensures RemoveSpaces(Strip(s)) == RemoveSpaces(s)
  {
    var t := s[LeadingSpaces(s)..];
    var j := |t| - TrailingSpaces(t);
    RemoveLeadingSpaces(s);
    RemoveSpaceTail(t, j);
  }

  /** `not s.strip()` holds exactly when `s` is empty or all whitespace. */
  lemma StripEmptyIffBlank(s: string)
    ensures Strip(s) == [] <==> AllSpace(s)
  {
    StripDropsOnlySpace(s);
    var r := Strip(s);
    if r != [] {
      assert RemoveSpaces(r) != [] by {
        assert !IsSpace(r[0]);
      }
    }
  }

  /** The words of `split()`, glued back together, are exactly the
      non-whitespace characters of the input. */
  lemma {:induction false} SplitConcat(s: string)
    ensures Concat(Split(s)) == RemoveSpaces(s)
    decreases |s|
  {
    var t := s[LeadingSpaces(s)..];
    RemoveLeadingSpaces(s);
    if t != [] {
      var n := WordLength(t);
      var rest := t[n..];
      SplitConcat(rest);
      ConcatCons(t[..n], Split(rest));
      RemoveWordThenRest(t, n);
    }
  }

  lemma RemoveLeadingSpaces(s: string)
    ensures RemoveSpaces(s) == RemoveSpaces(s[LeadingSpaces(s)..])
  {
    var i := LeadingSpaces(s);
    assert s[..i] + s[i..] == s;
    RemoveSpacesAppend(s[..i], s[i..]);
  }

  lemma RemoveSpaceTail(t: string, j: nat)
    requires j <= |t| && AllSpace(t[j..])
    ensures RemoveSpaces(t) == RemoveSpaces(t[..j])
  {
    assert t[..j] + t[j..] == t;
    RemoveSpacesAppend(t[..j], t[j..]);
  }


  lemma RemoveWordThenRest(t: string, n: nat)
    requires n <= |t| && NoSpace(t[..n])
    ensures RemoveSpaces(t) == t[..n] + RemoveSpaces(t[n..])
  {
    assert t[..n] + t[n..] == t;
    RemoveSpacesAppend(t[..n], t[n..]);
    RemoveSpacesKeepsWord(t[..n]);
  }

  lemma ConcatCons(w: string, words: seq<string>)
    ensures Concat([w] + words) == w + Concat(words)
  {
    assert ([w] + words)[1..] == words;
  }

  /** `WordLength` is the length of the whitespace-free prefix ended by
      whitespace or by the end of the string. */
  lemma WordLengthIs(s: string, m: nat)
    requires m <= |s| && NoSpace(s[..m]) && (m < |s| ==> IsSpace(s[m]))
    ensures WordLength(s) == m
  {
    var n := WordLength(s);
    assert forall i :: 0 <= i < m ==> s[..m][i] == s[i];
    assert forall i :: 0 <= i < n ==> s[..n][i] == s[i];
  }

  /** `LeadingSpaces` is the length of the all-whitespace prefix ended by a
      non-whitespace character or by the end of the string. */
  lemma LeadingSpacesIs(s: string, m: nat)
    requires m <= |s| && AllSpace(s[..m]) && (m < |s| ==> !IsSpace(s[m]))
    ensures LeadingSpaces(s) == m
  {
    var n := LeadingSpaces(s);
    assert forall i :: 0 <= i < m ==> s[..m][i] == s[i];
    assert forall i :: 0 <= i < n ==> s[..n][i] == s[i];
  }

  /** A word followed by whitespace is split off as the first word. */
  lemma SplitWordThenSpace(w: string, c: char, rest: string)
    requires w != [] && NoSpace(w) && IsSpace(c)
    ensures Split(w + [c] + rest) == [w] + Split(rest)
  {
    var s := w + [c] + rest;
    assert s[..0] == [];
    LeadingSpacesIs(s, 0);
    assert s[0..] == s;
    assert s[..|w|] == w;
    WordLengthIs(s, |w|);
    var t := s[|w|..];
    assert t == [c] + rest;
    var k := LeadingSpaces(rest);
    assert t[..1 + k] == [c] + rest[..k];
    assert 1 + k < |t| ==> t[1 + k] == rest[k];
    LeadingSpacesIs(t, 1 + k);
    assert t[1 + k..] == rest[k..];
  }

  /** Whitespace in front of a string adds no word. */
  lemma SplitSkipsSpaces(sp: string, s: string)
    requires AllSpace(sp)
    ensures Split(sp + s) == Split(s)
  {
    var k := LeadingSpaces(s);
    LeadingSpacesAppend(sp, s, k);
    assert (sp + s)[|sp| + k..] == s[k..];
    SplitSameRest(sp + s, s, s[k..]);
  }

  /** Two strings whose text after the leading whitespace is the same split
      alike. */
  lemma SplitSameRest(u: string, s: string, t: string)
    requires t == u[LeadingSpaces(u)..] && t == s[LeadingSpaces(s)..]
    ensures Split(u) == Split(s)
  {
  }

  lemma LeadingSpacesAppend(sp: string, s: string, k: nat)
    requires AllSpace(sp) && k == LeadingSpaces(s)
    ensures LeadingSpaces(sp + s) == |sp| + k
  {
    var u := sp + s;
    assert u[..|sp| + k] == sp + s[..k];
    assert |sp| + k < |u| ==> u[|sp| + k] == s[k];
    LeadingSpacesIs(u, |sp| + k);
  }

  /** A non-empty string without whitespace is one word. */
  lemma SplitOneWord(w: string)
    requires w != [] && NoSpace(w)
    ensures Split(w) == [w]
  {
    assert w[..0] == [];
    LeadingSpacesIs(w, 0);
    assert w[0..] == w;
    assert w[..|w|] == w;
    WordLengthIs(w, |w|);
    assert Split(w[|w|..]) == [];
  }

  /** A string that whitespace at index `k` cuts into two whitespace-free
      parts splits into two words. */
  lemma SplitTwoWords(s: string, k: nat)
    requires 0 < k < |s| - 1 && IsSpace(s[k]) && NoSpace(s[..k]) && NoSpace(s[k + 1..])
    ensures |Split(s)| == 2
  {
    var first, last := s[..k], s[k + 1..];
    assert first + [s[k]] + last == s;
    SplitWordThenSpace(first, s[k], last);
    SplitOneWord(last);
    assert |[first] + Split(last)| == 2;
  }

  /** A string that is not blank after `strip()` has at least one word. */
  lemma NonBlankHasWord(s: string)
    requires Strip(s) != []
    ensures |Split(s)| >= 1
  {
    StripEmptyIffBlank(s);
    SplitConcat(s);
  }

  /** `split()` finds no word exactly when the string is blank. */
  lemma SplitEmptyIffBlank(s: string)
    ensures Split(s) == [] <==> AllSpace(s)
  {
    StripEmptyIffBlank(s);
    if !AllSpace(s) {
      NonBlankHasWord(s);
    }
  }

  lemma {:induction false} CountSkipsSpaces(s: string, k: nat, inWord: bool)
    requires k <= |s| && AllSpace(s[..k])
    ensures CountWordStarts(s, inWord) == CountWordStarts(s[k..], if k == 0 then inWord else false)
    decreases k
  {
    if k > 0 {
      assert IsSpace(s[..k][0]);
      assert s[1..][..k - 1] == s[..k][1..];
      CountSkipsSpaces(s[1..], k - 1, false);
      assert s[1..][k - 1..] == s[k..];
    }
  }

  lemma {:induction false} CountInsideWord(s: string, k: nat)
    requires k <= |s| && NoSpace(s[..k])
    ensures CountWordStarts(s, true) == CountWordStarts(s[k..], true)
    decreases k
  {
    if k > 0 {
      assert !IsSpace(s[..k][0]);
      assert s[1..][..k - 1] == s[..k][1..];
      CountInsideWord(s[1..], k - 1);
      assert s[1..][k - 1..] == s[k..];
    }
  }

  /** `len(s.split())` agrees with the left-to-right count of word starts. */
  lemma {:induction false} WordCountIsWordStarts(s: string)
    ensures |Split(s)| == CountWordStarts(s, false)
    decreases |s|
  {
    var i := LeadingSpaces(s);
    var t := s[i..];
    CountSkipsSpaces(s, i, false);
    if t != [] {
      var n := WordLength(t);
      assert !IsSpace(t[0]);
      assert t[1..][..n - 1] == t[..n][1..];
      CountInsideWord(t[1..], n - 1);
      assert t[1..][n - 1..] == t[n..];
      var u := t[n..];
      if u != [] {
        assert IsSpace(u[0]);
      }
      WordCountIsWordStarts(u);
    }
  }

  lemma LowerIdempotent(s: string)
    ensures Lower(Lower(s)) == Lower(s)
  {
  }

  /** Words of the lower-cased string are the lower-cased words. */
  lemma {:induction false} SplitLower(s: string)
    ensures Split(Lower(s)) == LowerEach(Split(s))
    decreases |s|
  {
    var ls := Lower(s);
    var i := LeadingSpaces(s);
    SameLeadingSpaces(s, ls);
    var t := s[i..];
    var lt := ls[i..];
    LowerSlices(s, i);
    if t != [] {
      var n := WordLength(t);
      SameWordLength(t, lt);
      LowerSlices(t, n);
      SplitLower(t[n..]);
      var ws := Split(s);
      assert ws == [t[..n]] + Split(t[n..]);
      assert ws[0] == t[..n] && ws[1..] == Split(t[n..]);
    }
  }

  /** Lower-casing leaves the number of words unchanged. */
  lemma LowerKeepsWordCount(s: string)
    ensures |Split(Lower(s))| == |Split(s)|
  {
    SplitLower(s);
  }

  lemma LowerSlices(s: string, i: nat)
    requires i <= |s|
    ensures Lower(s)[i..] == Lower(s[i..])
    ensures Lower(s)[..i] == Lower(s[..i])
  {
  }

  lemma {:induction false} SameLeadingSpaces(s: string, t: string)
    requires |s| == |t| && forall i :: 0 <= i < |s| ==> (IsSpace(s[i]) <==> IsSpace(t[i]))
    ensures LeadingSpaces(s) == LeadingSpaces(t)
    decreases |s|
  {
    if s != [] {
      SameLeadingSpaces(s[1..], t[1..]);
    }
  }

  lemma {:induction false} SameWordLength(s: string, t: string)
    requires |s| == |t| && forall i :: 0 <= i < |s| ==> (IsSpace(s[i]) <==> IsSpace(t[i]))
    ensures WordLength(s) == WordLength(t)
    decreases |s|
  {
    if s != [] {
      SameWordLength(s[1..], t[1..]);
    }
  }
}
