# Customer Name Categorizer: a Dafny model of its classifier

The app reads a spreadsheet, looks at the `Customer Name` column, and writes
one of three labels into a new `Category` column: `Individual`, `Other`, or
`Needs Review`. This project models the decision function
`categorize_customer`, the keyword vocabulary it reads, and the row-by-row
map that fills the column. It then proves what that function does for every
possible input.

`categorize_customer` runs three checks in order, and the first one that
decides wins:

1. A missing cell, or a name that is empty after `strip()`, is `Needs Review`.
2. The name is lower-cased and searched with `re.search` for each keyword's
   pattern. Any hit gives `Other`.
3. Otherwise the words of `split()` are counted. Three or fewer give
   `Individual`; more give `Needs Review`.

The keyword pattern is `rf'\\b{kw}\\b'`. In a raw string `\\b` is an escaped
backslash followed by `b`. The regex therefore asks for a literal backslash
and a `b` on both sides of the keyword; it does not ask for a word boundary.
The keyword is not escaped either, so each `.` in it (`inc.`, `s.a`,
`l.l.c.`, `n.g.o`) matches any character except a newline. The model keeps
this behaviour exactly, so as written a name with no backslash in it is never
`Other` (see Findings). A separate module, `Intended`, models the whole-word
test the vocabulary was evidently written for. It is clearly marked, and the
model of the app does not use it.

Layout:

- `text.dfy` (module `Text`): Python's `str.strip()`, `str.split()` and
  `str.lower()`. It uses Python's whitespace set and ASCII-only
  lower-casing. It also holds reference definitions of the non-whitespace
  characters of a string and of the word count.
- `matching.dfy` (module `Matching`): `re.search` for patterns made of
  literal characters, the `.` wildcard, and optional `\b` assertions around
  them.
- `categorizer.dfy` (module `Categorizer`): the vocabulary, the decision
  sequence, `categorize_customer`, the column map, and the lemmas about them.
  - The vocabulary is the app's single list, in the app's order. It is
    declared as five consecutive runs, and `Keywords` is their concatenation.
  - `Decide` is the decision sequence, with the keyword test as a parameter.
    `Categorize` is `Decide` with the app's own test.
- `intended.dfy` (module `Intended`): the whole-word variant, used only for
  the finding below.

Three consequences of the code are worth stating. A name of more than three
words without a keyword hit is `Needs Review` (app.py:46). Words are split
on whitespace only (app.py:38). The keyword test is the literal-backslash
one above (app.py:40).

## Model

| member | source | states |
|---|---|---|
| `Categorizer.Label` | app.py:33-46 | every category is written as exactly one of "Needs Review", "Other", "Individual" |
| `Categorizer.LabelDistinct` | app.py:35-46 | different categories are written as different strings, so the column tells the three outcomes apart |
| `Text.Strip` | app.py:34 | `strip()` returns a contiguous piece of its input with only whitespace around it, and the piece neither starts nor ends with whitespace |
| `Text.StripDropsOnlySpace` | app.py:34 | `strip()` loses no non-whitespace character |
| `Text.StripEmptyIffBlank` | app.py:34 | `not s.strip()` holds exactly when every character of `s` is whitespace |
| `Text.Lower` | app.py:37 | the result has the same length as the input; each letter A-Z becomes the letter 32 code points later (a-z), and every other character is copied unchanged |
| `Text.LowerIdempotent` | app.py:37 | lower-casing twice is lower-casing once |
| `Text.Split` | app.py:38 | every word `split()` returns is non-empty and free of whitespace |
| `Text.RemoveSpaces` | app.py:34-38 | the reference string of non-whitespace characters has no whitespace, and is empty exactly when the input is blank |
| `Text.SplitSkipsSpaces` | app.py:38 | whitespace in front of a string adds no word |
| `Text.SplitWordThenSpace` | app.py:38 | a whitespace-free word followed by whitespace is split off as the first word, and splitting goes on after it |
| `Text.SplitOneWord` | app.py:38 | a non-empty string without whitespace is exactly one word |
| `Text.SplitConcat` | app.py:38 | the words of `split()`, joined, are exactly the non-whitespace characters of the input, in order |
| `Text.WordCountIsWordStarts` | app.py:38 | `len(s.split())` equals an independent left-to-right count of word starts |
| `Text.NonBlankHasWord` | app.py:34-38 | a name that is not blank after `strip()` has at least one word |
| `Text.SplitEmptyIffBlank` | app.py:34-38 | `split()` returns no word exactly when the name is blank |
| `Text.LowerEach` | app.py:37-38 | lower-casing a list of words lower-cases each word in place, keeping their number and order |
| `Text.SplitLower` | app.py:37-38 | the words of the lower-cased name are the lower-cased words of the name |
| `Text.LowerKeepsWordCount` | app.py:37-38 | lower-casing does not change the word count |
| `Matching.Compile` | app.py:40 | a keyword put into a regex unescaped: each position matches exactly the keyword's character, except that a `.` matches any character but a newline |
| `Matching.SearchFrom` | app.py:40 | scanning from index `i` succeeds exactly when the pattern matches at some index at or after `i` |
| `Matching.Search` | app.py:40 | `re.search` succeeds exactly when the pattern matches at some position of the text |
| `Categorizer.AnyKeyword` | app.py:40 | `any(...)` over the keywords is true exactly when some keyword's pattern occurs in the text |
| `Categorizer.KeywordPattern` | app.py:40 | the regex `rf'\\b{kw}\\b'` matches at a position exactly when the text there holds a backslash, `b`, the keyword (a `.` in it standing for any character but a newline), a backslash, `b` |
| `Categorizer.KeywordHit` | app.py:40 | the `any(...)` keyword test on the lower-cased name is true exactly when some keyword stands in it between two literal backslash-`b` pairs |
| `Categorizer.NoBackslashNoKeyword` | app.py:40 | text without a backslash matches no keyword's regex |
| `Categorizer.NoBackslashNoKeywordHit` | app.py:37-40 | a name without a backslash, once lower-cased, hits no keyword |
| `Categorizer.IsBlank` | app.py:34 | `pd.isna(name) or not str(name).strip()` holds exactly when the cell is missing or every character of the name is whitespace |
| `Categorizer.Decide` | app.py:33-46 | a missing cell is `Needs Review`; for a name, the result is `Other` exactly when it is not blank and its lower-cased form hits a keyword, whatever its word count; `Individual` exactly when there is no hit and it has one to three words; `Needs Review` exactly when it is blank, or has no hit and more than three words |
| `Categorizer.Categorize` | app.py:33-46 | `categorize_customer` returns `Other` exactly for a non-blank name whose lower-cased form holds a keyword between two literal backslash-`b` pairs |
| `Categorizer.IndividualHasWords` | app.py:34-44 | when the result is `Individual`, the word count the app compared is between 1 and 3, never 0 |
| `Categorizer.CategorizeIgnoresCase` | app.py:37-38 | a name and its lower-cased form get the same category |
| `Categorizer.NoBackslashNeverOther` | app.py:37-41 | as written, a name without a backslash is never `Other` |
| `Categorizer.CategorizeColumn` | app.py:55 | the `Category` column has one entry per row, and row `i` holds the category of row `i`'s name |
| `Categorizer.ColumnAppend` | app.py:55 | classifying two blocks of rows and joining the results equals classifying the joined rows, so no row affects another |
| `Categorizer.PlainFewWordsIndividual` | app.py:37-44 | as written, any name of one to three words (as `split()` counts them) without a backslash is `Individual` |
| `Categorizer.AcmeCorpAsWritten` | app.py:40-44 | as written, "Acme Corp" is `Individual` |
| `Categorizer.BackslashKeywordIsOther` | app.py:37-41 | as written, `Acme \bCorp\b` (with a literal backslash before each `b`) is `Other` through the keyword "corp" |
| `Intended.CategorizeWholeWord` | app.py:33-46 | with real word boundaries, the result is `Other` exactly for a non-blank name in whose lower-cased form some keyword's whole-word pattern occurs |
| `Intended.WholeWordKeywordFound` | app.py:40 | with real word boundaries, a keyword that starts and ends with a word character is found wherever it stands as a whole word |
| `Intended.WholeWordKeywordIsOther` | app.py:40-41 | with real word boundaries, a name whose lower-cased form holds such a keyword as a whole word is `Other` |
| `Intended.AcmeCorpWholeWord` | app.py:40-41 | with real word boundaries, "Acme Corp" is `Other` |
| `Intended.CoNotInsideColeman` | app.py:40 | with real word boundaries, the keyword "co" is not found inside "coleman" |

## Findings

| source | as written | input that shows it | evidently intended | confidence | as-written member | corrected member |
|---|---|---|---|---|---|---|
| app.py:40 | `rf'\\b{kw}\\b'` makes the regex require a literal backslash and `b` on both sides of the keyword, so no ordinary name ever hits a keyword | "Acme Corp" is `Individual` | `\b` word boundaries: "Acme Corp" is `Other`, and "co" still does not match inside "coleman" | high; not executed | `Categorizer.AcmeCorpAsWritten` | `Intended.WholeWordKeywordIsOther` |

The app's behaviour is what `Categorizer.Categorize` models, and the column
map uses it. The corrected test lives in `Intended.CategorizeWholeWord`,
which shares the decision sequence `Decide`. The model of the app keeps the
as-written test because that is what the deployed code computes.

## Left out

- The Streamlit page: title, uploader, preview, success and error messages,
  and the download button (app.py:7-12, 56-70). These are presentation only.
- Excel input and output through pandas, openpyxl and `BytesIO`, and the
  check that the `Customer Name` column exists (app.py:51-53, 63-64). These
  are file I/O. The column is modelled as a sequence of optional strings.
- The `try`/`except` that reports any error on the page (app.py:71-72).
- `pd.isna` is modelled only as "the cell is missing" (`None`). NaN floats
  and NaT are not modelled separately.
- `str(name)` on a non-string cell (a number, a date) is not modelled. Cells
  are taken to be strings already.
- `Text.Lower` lower-cases only the ASCII letters A-Z. Python's Unicode
  `str.lower()` also maps other letters, and a few of them to two
  characters.
- `Matching.Compile` treats only `.` as special. The vocabulary contains no
  other regex metacharacter (`&` and `-` are literal outside a character
  class), but this fact about the constant is not proved. Other regex
  constructs are not modelled.
- `Matching.IsWordChar`, used only by the whole-word variant, is ASCII
  letters, digits and `_`. Python's `\w` on strings also covers Unicode
  letters and digits.
