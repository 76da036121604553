# JD matching core in Dafny

This project models the two pieces of logic in the JD matching repository
that do their own work, and proves properties of both.

- `clean_text` (`jd-matching-project/src/preprocessing.py`) normalises a job
  description or an employee's current JD before vectorisation. It lower-cases the
  text, deletes every run of digits, deletes the 32 characters of Python's
  `string.punctuation`, and collapses whitespace with `" ".join(text.split())`.
  A non-string argument gives `""`. `preprocessing.dfy` (module
  `Preprocessing`) writes each of those steps as a recursive function over
  `string`. Its lemmas state the character classes of the output, its
  whitespace shape, exactly which characters survive and in what order, that
  it is no longer than the input, and that cleaning is idempotent.
- `get_top_n_matches` (`jd-matching-project/src/matching.py`) ranks the
  employee table against one job description. `matching.dfy` (module
  `Matching`) models it as the method `TopNMatches`. The similarity scores
  are an input sequence of reals, one per row. The method adds them to a
  fresh array, which is the copy of the table with its new `similarity`
  column. It sorts that copy in place by descending score, keeps the first
  `n` rows and projects `employee_id`, `name`, `current_jd` and
  `similarity`. The ranking's contract is the predicate `IsTopN`. It says the
  result has `min(n, rows)` rows. The rows are distinct and each carries the
  projected columns and the score of its own table row. They are sorted by
  non-increasing score, and no row left out scores higher than a selected
  one. The sort is a selection sort. Its contract promises only a sorted
  permutation, because the source's sort is not stable and no tie order may
  be assumed.

Characters are modelled on ASCII. A capital letter is `A`-`Z`, a digit is
`0`-`9`, and the punctuation is the literal `string.punctuation`. Whitespace
is what `str.split()` splits on among ASCII: code points 9-13, the
separators 28-31, and the space.

The pandas errors that `get_top_n_matches` can raise are modelled as
`Err` results instead of being excluded by preconditions:
- a score sequence whose length differs from the table's gives
  `LengthMismatch`. Assigning the column at `matching.py:15` raises for a
  mismatch when the table has rows. The empty table is an exception, listed
  under "Left out";
- a table lacking one of the projected columns (`matching.py:20` raises
  `KeyError`) gives `MissingColumns`, listing the absent names.

## Model

| member | source | states |
|---|---|---|
| `Preprocessing.CleanText` | jd-matching-project/src/preprocessing.py:8-9 | An argument that is not a string gives the empty string. |
| `Preprocessing.Lower` | jd-matching-project/src/preprocessing.py:11 | `text.lower()` keeps the length, lower-cases each character in place and leaves no capital letter. |
| `Preprocessing.LowerOfLower` | jd-matching-project/src/preprocessing.py:11 | Lower-casing a text with no capital letters leaves it unchanged. |
| `Preprocessing.DropDigitRun` | jd-matching-project/src/preprocessing.py:13 | One match of `\d+`: the characters dropped are all digits, and what is left is a suffix that does not start with a digit. |
| `Preprocessing.StripDigits` | jd-matching-project/src/preprocessing.py:13 | `re.sub(r"\d+", "", text)` never lengthens the text. |
| `Preprocessing.StripDigitsDeletesEachDigit` | jd-matching-project/src/preprocessing.py:13 | Deleting maximal runs of digits is the same as deleting every digit and keeping all other characters in order. |
| `Preprocessing.StripPunctuation` | jd-matching-project/src/preprocessing.py:15 | Deleting punctuation never lengthens the text, and a character occurs in the result exactly when it occurs in the input and is not one of `string.punctuation`. |
| `Preprocessing.PunctuationIsPrintableSymbols` | jd-matching-project/src/preprocessing.py:15 | `string.punctuation` has 32 members: the printable ASCII characters other than letters, digits and the space. |
| `Preprocessing.Word` | jd-matching-project/src/preprocessing.py:17 | The piece `str.split()` cuts off next is the longest whitespace-free prefix, and it ends at whitespace or at the end of the text. |
| `Preprocessing.Split` | jd-matching-project/src/preprocessing.py:17 | Every piece of `text.split()` is non-empty and free of whitespace. Where the cuts fall is fixed by `SplitOfWord` and `SplitAroundSpace`. |
| `Preprocessing.SplitOfWord` | jd-matching-project/src/preprocessing.py:17 | A non-empty text without whitespace splits into exactly itself. |
| `Preprocessing.SplitAroundSpace` | jd-matching-project/src/preprocessing.py:17 | Every whitespace character is a cut. The pieces of `a + c + b` for a whitespace `c` are the pieces of `a` followed by the pieces of `b`. |
| `Preprocessing.Join` | jd-matching-project/src/preprocessing.py:17 | `" ".join(words)` is as long as the words run together plus one separator between each pair of neighbours. |
| `Preprocessing.JoinAppend` | jd-matching-project/src/preprocessing.py:17 | Joining two non-empty lists of words one after the other is joining each list and putting one space between the two. |
| `Preprocessing.SplitKeepsNonSpace` | jd-matching-project/src/preprocessing.py:17 | The pieces of `text.split()`, run together, are the text's non-whitespace characters in order. |
| `Preprocessing.JoinIsSingleSpaced` | jd-matching-project/src/preprocessing.py:17 | `" ".join(words)` has no leading or trailing whitespace, no two adjacent whitespace characters and no whitespace other than the space. It is empty exactly when there are no words. |
| `Preprocessing.JoinKeepsWords` | jd-matching-project/src/preprocessing.py:17 | Deleting the spaces of `" ".join(words)` gives the words run together. |
| `Preprocessing.SplitJoinRoundTrip` | jd-matching-project/src/preprocessing.py:17 | Splitting `" ".join(words)` gives back the same words. |
| `Preprocessing.JoinSplitNoLonger` | jd-matching-project/src/preprocessing.py:17 | Collapsing whitespace never lengthens a text. |
| `Preprocessing.StrippedKeeps` | jd-matching-project/src/preprocessing.py:11-15 | After lower-casing, digit and punctuation removal, the text is exactly the lower-cased input's characters that are neither digits nor punctuation, in order. |
| `Preprocessing.StrippedAroundSpace` | jd-matching-project/src/preprocessing.py:11-15 | Lower-casing and deleting digits and punctuation keep every whitespace character in place: they treat the text on each side of it independently. |
| `Preprocessing.CleanTextKeepsWordChars` | jd-matching-project/src/preprocessing.py:11-17 | The output's non-whitespace characters are exactly, in order, the lower-cased input's characters that are not digits, punctuation or whitespace. |
| `Preprocessing.CleanTextOfWord` | jd-matching-project/src/preprocessing.py:11-17 | Removed digits and punctuation leave no space behind. A text without whitespace cleans to exactly its lower-cased letters and other word characters, run together in order. With `CleanTextAtSpace` this fixes the output for every string. |
| `Preprocessing.CleanTextIsSingleSpaced` | jd-matching-project/src/preprocessing.py:17 | The output has no leading or trailing whitespace, no two adjacent whitespace characters and no whitespace other than the space. |
| `Preprocessing.CleanTextHasOnlyCleanChars` | jd-matching-project/src/preprocessing.py:11-15 | The output holds no capital letter, no digit and no punctuation character. |
| `Preprocessing.CleanTextAtSpace` | jd-matching-project/src/preprocessing.py:11-17 | A whitespace character in the input separates words in the output. Cleaning `a + c + b`, for whitespace `c`, gives the cleaned `a` and the cleaned `b` joined by exactly one space, or just one of them when the other cleans to nothing. |
| `Preprocessing.CleanTextNoLonger` | jd-matching-project/src/preprocessing.py:4-18 | The output is never longer than the input. |
| `Preprocessing.CleanTextIdempotent` | jd-matching-project/src/preprocessing.py:4-18 | Cleaning an already cleaned text gives it back unchanged. |
| `Matching.MissingFrom` | jd-matching-project/src/matching.py:20 | The names reported missing are exactly the requested columns the table lacks. |
| `Matching.Missing` | jd-matching-project/src/matching.py:20 | Nothing is missing exactly when the table has `employee_id`, `name` and `current_jd`. |
| `Matching.WithSimilarity` | jd-matching-project/src/matching.py:14-15 | The copy with the `similarity` column has as many rows as the table. It holds each table row once, with distinct entries, under its own label and with the score computed for that label. |
| `Matching.Project` | jd-matching-project/src/matching.py:20 | Projecting a scored row keeps its label, its `employee_id`, `name` and `current_jd` cells and its similarity. |
| `Matching.Head` | jd-matching-project/src/matching.py:18-20 | `head(n)` followed by the projection has `min(n, rows)` rows. They carry the labels of the first rows of the sorted copy, and stay in descending order when the copy is sorted. |
| `Matching.IndexOfBest` | jd-matching-project/src/matching.py:18 | The position it returns holds a highest score among the rows from the given position on. |
| `Matching.SortBySimilarity` | jd-matching-project/src/matching.py:18 | Sorting the copy in place leaves it ordered by non-increasing score and a permutation of what it was. No order among equal scores is promised. |
| `Matching.TopNMatches` | jd-matching-project/src/matching.py:5-20 | Mismatched score and row counts give `LengthMismatch`. Missing projected columns give `MissingColumns`. Otherwise the result is a top-n selection (`IsTopN`): `min(n, rows)` distinct table rows, each projected to its `employee_id`, `name` and `current_jd` with its own row's score, sorted by non-increasing score, and with no left-out row scoring above a selected one. An empty table gives an empty result. The caller's table is only read: the method has no `modifies` clause. `n` defaults to 5, as in the source. |
| `Matching.SortedCopyHoldsEachRowOnce` | jd-matching-project/src/matching.py:14-18 | Any reordering of the scored copy holds every table row exactly once, each with the score computed for its own position. |
| `Matching.HeadOfSortedCopyIsTopN` | jd-matching-project/src/matching.py:18-20 | The first `n` rows of any descending sort of the scored copy, projected, form a top-n selection. |
| `Matching.TopMatchIsBest` | jd-matching-project/src/matching.py:18 | The first result scores at least as high as every row of the table. |
| `Matching.AllRowsWhenNCoversTable` | jd-matching-project/src/matching.py:18 | When `n` is at least the number of rows, every row of the table is in the result. |

## Left out

- The similarity scores: `cosine_similarity` at `matching.py:11` is a floating-point scikit-learn call. The model takes its output as a sequence of reals, one per row, so NaN scores and floating-point rounding are not modelled.
- Vectorisation: `src/embeddings.py` is a thin wrapper over scikit-learn's `TfidfVectorizer`, whose tokenisation and weighting are in a library outside this model.
- The Streamlit applications `app.py` and `jd-matching-project/app.py`: UI, CSV and directory reading, pickle loading and caching are I/O and orchestration. The second application's matching only echoes the selected row.
- Non-ASCII characters: Python's `str.lower`, `\d` and `str.split` follow Unicode. The model treats every non-ASCII character as an uncased letter that is neither a digit nor whitespace. So it does not model, for example, `'\xa0'` being split on, Arabic-Indic digits being deleted, or lower-casing that changes a text's length.
- Matching.TopNMatches: `n` is a natural number. The behaviour of `head(n)` for negative `n` is not modelled.
- Matching.TopNMatches: the model says nothing about the order of rows with equal scores. `sort_values` at `matching.py:18` uses pandas' default sort, which is not stable, so ties are not promised to keep their input order. The model follows the code. Its selection sort produces one admissible order.
- Matching.TopNMatches: an empty table with a non-empty score sequence gives `LengthMismatch`, but pandas does not raise there. Assigning the column at `matching.py:15` to a frame with no rows adopts the scores' index. `head(n)` then returns up to `min(n, scores)` rows whose cells are missing values, or `KeyError` at `matching.py:20` when the empty table lacks the projected columns. The application never produces this input: its scores come from that same table.
- Matching.TopNMatches: the table's row labels are modelled as the positions 0 to rows-1, which is what reading a CSV produces. Arbitrary pandas index labels are not modelled.
