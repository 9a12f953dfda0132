# Approval ID checker — a Dafny model

The approval checker is a small Streamlit tool. It compares a bank's settlement
report (an Excel "PayDetailRpt" workbook) with a vending terminal's text log. It
lists the authorization codes that the bank settled but that never appear in the
terminal's log as `Approval ID` entries. The logic sits in `app.py`:

- **Log scanner.** `extract_approval_ids_from_log` runs
  `re.findall(r'Approval ID[:：]\s*([A-Z0-9]+)', content)`. The model
  (`LogScan`) writes that out as a recursive left-to-right scan. At each position
  it tries the pattern. On a match it reports the greedy code and resumes after
  it. Otherwise it moves on by one character. `\s` is Python's Unicode
  whitespace (`Text.IsSpace`), and `[:：]` is the ASCII colon or U+FF1A.
- **Settlement extraction.** `extract_auth_codes_from_paydetail` reads the
  workbook and selects the column labelled exactly `授權碼`. It drops missing
  cells and strips each value. The model (`PayDetail`) takes the workbook as it
  comes out of the reader. It is either `Unreadable` or a table of column labels
  and rows of optional text cells. Both error paths return `[]`.
- **Reconciliation.** `unmatched = sorted(set(auth_codes) - set(approval_ids))`
  and the displayed count `len(unmatched)`. The model (`Reconcile`) spells out
  Python's code-point lexicographic string order (`Precedes`). It proves the
  result strictly ascending and equal, as a set, to the set difference.
- **Filename check.** The warning shown when the uploaded file name does not
  start with `PayDetailRpt`.

Files: `wrappers.dfy` (Option), `text.dfy` (whitespace, `strip`, `startswith`),
`log_scan.dfy`, `pay_detail.dfy`, `reconcile.dfy`.

`app.py` drops only missing cells: a whitespace-only cell strips to `""` and is
kept, so `""` can appear among the unmatched codes. The model keeps it too.

## Model

| member | source | states |
|---|---|---|
| `Text.IsSpace` | app.py:9 | `\s`, and `str.isspace()` as `strip()` uses it at app.py:20: every ASCII whitespace character (space, tab to carriage return) is included, and nothing above U+3000 |
| `Text.Strip` | app.py:20 | `str.strip()`: the result neither begins nor ends with a whitespace character |
| `Text.StripIsSlice` | app.py:20 | the stripped value is a slice `s[a..b]` of the cell text, and only whitespace was cut on either side |
| `Text.StripIdempotent` | app.py:20 | stripping an already stripped value changes nothing |
| `Text.StripKeepsTrimmed` | app.py:20 | a value without surrounding whitespace comes back unchanged |
| `Text.StartsWith` | app.py:39 | `str.startswith`: true exactly when the string is the prefix followed by some rest, false exactly when no rest completes it |
| `LogScan.SkipSpaces` | app.py:9 | `\s*` consumes exactly the maximal run of whitespace |
| `LogScan.SkipCode` | app.py:9 | the greedy `[A-Z0-9]` run: every character consumed is in the class, and the next one is not |
| `LogScan.MatchAt` | app.py:9 | trying the pattern at one position: a match found there starts at that position and its code is a non-empty span inside the text |
| `LogScan.MatchAtSound` | app.py:9 | a match found at a position is the greedy match of the pattern there: marker, colon, only whitespace, then a maximal `[A-Z0-9]` run |
| `LogScan.MatchAtComplete` | app.py:9 | whenever any span matches the pattern at a position, trying it there succeeds, with the group starting at the same place and reaching at least as far |
| `LogScan.Scan` | app.py:9 | the `findall` walk: each reported match is the hit at its own start, at or after the starting point; matches come in text order and do not overlap |
| `LogScan.ScanComplete` | app.py:9 | the walk skips nothing: every position with a hit lies inside some reported match |
| `LogScan.FindAll` | app.py:9 | every reported match is the match found at its own start, at or after the scan start; matches come in text order and do not overlap |
| `LogScan.FindAllComplete` | app.py:9 | the scan misses nothing: each position where the pattern matches lies inside a reported match |
| `LogScan.FindAllSound` | app.py:9 | every reported match is greedy |
| `LogScan.ExtractApprovalIds` | app.py:7-9 | the `k`-th code is exactly the captured group of the `k`-th reported match, so codes keep match order and duplicates; every code is non-empty and made only of `A-Z` and `0-9` |
| `LogScan.ApprovalIdOrigin` | app.py:9 | the `k`-th code comes from the `k`-th reported match, which is greedy: the code stands right after `Approval ID`, a colon (`:` or `：`) and only whitespace, and is not followed by another `[A-Z0-9]` character |
| `LogScan.ApprovalIdsInTextOrder` | app.py:9 | codes come back in left-to-right order: the match behind the `j`-th code ends before the marker of the match behind any later `k`-th code |
| `LogScan.ApprovalIdsComplete` | app.py:9 | every occurrence of the pattern in the text lies inside the reported match behind some returned code |
| `LogScan.NoMarkerNoIds` | app.py:9 | text in which `Approval ID` never occurs yields `[]` |
| `LogScan.ScanExample` | app.py:9 | `Approval ID: AB12` yields exactly `["AB12"]` |
| `PayDetail.ColumnIndex` | app.py:19 | finds a column labelled exactly `授權碼` and the first one; `None` exactly when no label equals it |
| `PayDetail.Column` | app.py:20 | `df["授權碼"]`: one cell per row, each row's cell in that column, in row order |
| `PayDetail.DropMissing` | app.py:20 | `dropna()` never yields more values than there are cells |
| `PayDetail.DropMissingPicksPresent` | app.py:20 | `dropna()` keeps exactly the present cells, in order: one strictly increasing position per result, covering every present cell; the length is the number of present cells |
| `PayDetail.StripAll` | app.py:20 | `.str.strip()`: one value per input value, each the stripped form of the value in the same position |
| `PayDetail.ExtractAuthCodes` | app.py:13-23 | an unreadable workbook or one without the `授權碼` column yields `[]`; every code returned is stripped |
| `PayDetail.AuthCodesFromColumn` | app.py:19-20 | with the column present, the codes are the stripped values of that column's present cells, one per present cell, in row order, duplicates kept |
| `PayDetail.FilenameWarning` | app.py:39-40 | the warning is off exactly when the name is `PayDetailRpt` followed by something; on, the name has no such form |
| `Reconcile.Precedes` | app.py:48 | Python's `<` on `str`, used by `sorted`: nothing sorts before the empty string |
| `Reconcile.PrefixPrecedes` | app.py:48 | in Python's string order a proper prefix sorts first |
| `Reconcile.DifferencePrecedes` | app.py:48 | a smaller code point at the first difference sorts first |
| `Reconcile.PrecedesWitness` | app.py:48 | the order holds only for a proper prefix or a smaller first difference |
| `Reconcile.PrecedesIsLexicographic` | app.py:48 | the string order used by `sorted` is exactly lexicographic order by code point |
| `Reconcile.PrecedesIrreflexive` | app.py:48 | no string sorts before itself |
| `Reconcile.PrecedesAsymmetric` | app.py:48 | two strings are never each before the other |
| `Reconcile.PrecedesTransitive` | app.py:48 | the order is transitive |
| `Reconcile.PrecedesTotal` | app.py:48 | any two distinct strings are ordered one way or the other |
| `Reconcile.AscendingIsDistinct` | app.py:48 | a strictly ascending result holds no code twice |
| `Reconcile.Insert` | app.py:48 | inserting into an ascending list keeps it strictly ascending and adds exactly the new code |
| `Reconcile.SortDistinct` | app.py:48 | `sorted(set(xs))`: strictly ascending, holding exactly the distinct elements of `xs` |
| `Reconcile.NotLogged` | app.py:48 | keeps exactly the settlement codes that do not occur among the log codes |
| `Reconcile.Unmatched` | app.py:48 | `unmatched` is strictly ascending and, as a set, equals `set(auth_codes) - set(approval_ids)` |
| `Reconcile.AscendingCardinality` | app.py:48 | a strictly ascending list has as many elements as distinct ones |
| `Reconcile.UnmatchedCount` | app.py:48-51 | the displayed count `len(unmatched)` is the size of the set difference |
| `Reconcile.UnmatchedMembership` | app.py:48 | a code is unmatched exactly when it is a settlement code and not a log code |
| `Reconcile.AllLoggedNoneUnmatched` | app.py:48 | when every settlement code appears in the log, nothing is unmatched |
| `Reconcile.Compare` | app.py:44-51 | one run: the unmatched codes of sheet and log text are ascending, equal to the set difference, and the count is its size |
| `Reconcile.NoColumnNothingUnmatched` | app.py:14-23 | an unreadable workbook or one without the column yields no unmatched codes and a count of 0 |
| `Reconcile.UnmatchedCodeOrigin` | app.py:44-48 | every unmatched code is the stripped value of a present `授權碼` cell in some row, and no log code equals it |
| `Reconcile.UnmatchedExample` | app.py:48 | settlement `["100300","100200","100300"]` against log `["100200"]` leaves exactly `["100300"]` |

## Left out

- The Streamlit page is not modelled: title, uploaders, spinner, subheader, result table, and the error and warning messages (app.py:25-52). It is presentation. The two error paths are modelled as returning `[]`, and the filename warning as a boolean.
- `@st.cache_data` memoisation (app.py:6, 12) is left out. It is a framework cache and does not change results.
- `pd.read_excel` (app.py:15) is left out. Its parsing, its header handling, its cell typing and the `astype(str)` rendering of cells (numbers come out as `"100200.0"`) are foreign library behaviour. The model takes the reader's outcome as a `Sheet` whose cells are already text. It also takes column labels as distinct, since the reader renames duplicate labels.
- `PayDetail.ExtractAuthCodes`: requires `Rectangular` (one cell per column in every row). A data frame always satisfies this, so no input of the source is excluded.
- `file.read().decode('utf-8')` (app.py:8) is byte I/O. The model takes the decoded text as input. The `UnicodeDecodeError` the source raises on invalid UTF-8 is not modelled.
- Python's regular-expression engine is not modelled in general. `LogScan` is a hand-written scanner for this one pattern. Backtracking never matters here because `\s` and `[A-Z0-9]` share no character.
