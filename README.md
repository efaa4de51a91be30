# Exceledador cleaning core, in Dafny

A model of the data-cleaning core of the Streamlit application `app.py`, which
reads any number of Excel workbooks, lets the user pick a phone column and an
e-mail column, cleans them, shows a data-quality report on the page, and
offers a workbook that holds the processed table and the lists of unique
phones and e-mails.

What is modelled:

- `clean_phone` (module `Cleaning`): an absent cell gives `None`; otherwise the
  digits of the text are kept in order and accepted only when there are exactly
  ten. The comparison of the first digit with `'3'` only runs `pass`, so the
  model accepts ten digits whatever the first one is, and the
  `cleaned.lower() == 'nan'` guard is kept and proved never to hold.
- `validate_email` (module `Cleaning`): strip whitespace, lower-case, then accept
  only text in the language of `^[a-zA-Z0-9_.+-]+@[a-zA-Z0-9-]+\.[a-zA-Z0-9-.]+$`.
  The regular expression is replaced by a recogniser (split at the first `@`,
  then the domain at its first `.`), proved equivalent to a declarative
  statement of the pattern's language (`EmailShape`). Python's `$` also matches
  just before a final newline; `EmailShape` is the language on text without
  one, which is all `validate_email` ever matches, since `strip()` has removed
  any trailing newline first.
- The quality report and the unique lists (module `Report`): pandas' `count()`,
  `nunique()` and `dropna().unique()` over a cleaned column, computed by one
  loop that keeps a count, a distinct count and a set of values seen.
- The processing section (module `Processing`): the upload loop that keeps the
  workbooks that could be read, tags their rows with the file name and counts
  their rows; `df_processed` as a `Frame` class whose columns are assigned in
  place; and the report's metric/value lists, built by appending.
- Module `Sequences` holds the subsequence relation. It states that both the
  digit filter and `dropna()` keep what they keep in its original order.

A cell is `Option<string>`: `None` stands for a cell pandas reads as `None` or
NaN, `Some(text)` for the text `str(cell)` gives. A row is a map from column
name to cell; a name the row lacks reads as `None`, as it does after pandas
concatenates workbooks with different columns. The column selectors are the
strings the source compares with the option `"-- No procesar --"`.

## Model

| member | source | states |
|---|---|---|
| `Cleaning.Digits` | app.py:21 | `re.sub(r'\D', '', text)` returns only digits and is no longer than its input |
| `Cleaning.DigitsIsSubsequence` | app.py:21 | the digit string is a subsequence of the input: characters kept in their original order |
| `Cleaning.DigitsCounts` | app.py:21 | every digit occurs in the result as often as in the input, and no other character occurs |
| `Cleaning.DigitsOfDigitString` | app.py:21 | removing non-digits from a string of digits changes nothing |
| `Cleaning.CleanPhone` | app.py:16-30 | `None` for an absent cell; a value exactly when the text has ten digits; that value has ten characters, all digits |
| `Cleaning.NanGuardNeverHolds` | app.py:23 | the `cleaned.lower() == 'nan'` test can never be true, since `cleaned` holds only digits |
| `Cleaning.CleanPhoneKeepsDigits` | app.py:21-30 | an accepted phone is exactly the digits of the text, in their original order, each digit as often as in the text |
| `Cleaning.CleanPhoneAcceptsTenDigits` | app.py:23-30 | any ten-digit string is returned unchanged, whatever its first digit (the `'3'` test only runs `pass`) |
| `Cleaning.CleanPhoneRejectsOtherLengths` | app.py:21-24 | a text whose digit count is not ten, the empty text included, gives `None` |
| `Cleaning.CleanPhoneIdempotent` | app.py:21-30 | cleaning an accepted phone again returns the same phone |
| `Cleaning.Lower` | app.py:36 | `lower()` keeps the length, turns each upper-case ASCII letter into the lower-case letter at the same place in the alphabet, leaves no upper-case ASCII letter and changes no other character |
| `Cleaning.LowerOfLower` | app.py:36 | lower-casing a string with no upper-case letter changes nothing |
| `Cleaning.Strip` | app.py:36 | `strip()` returns the part of the text between a leading and a trailing run of whitespace, and that part neither starts nor ends with whitespace |
| `Cleaning.StripOfStripped` | app.py:36 | stripping a text that neither starts nor ends with whitespace changes nothing |
| `Cleaning.EmailShape` | app.py:38 | reference definition of the pattern's language, on text without a trailing newline: a local part, `@`, a domain label, `.` and a tail, each a non-empty run of its character class; such a string has at least five characters and holds an `@` |
| `Cleaning.MatchesEmail` | app.py:38-39 | the recogniser that stands for `email_regex.match`: split at the first `@`, then the rest at its first `.`, and test each piece's class; an accepted string holds an `@` and a `.` |
| `Cleaning.EmailSplit` | app.py:38-39 | splitting an accepted string at its first `@` and the first `.` after it gives a local part, a domain label and a tail of the pattern's three character classes |
| `Cleaning.MatchesEmailIffShape` | app.py:38-39 | the recogniser accepts a string if and only if it is in the language of the e-mail regular expression |
| `Cleaning.ValidateEmail` | app.py:32-39 | `None` for an absent cell; a value exactly when the stripped, lower-cased text matches the pattern; the value is that stripped, lower-cased text |
| `Cleaning.ValidatedEmailShape` | app.py:36-39 | an accepted e-mail has no whitespace and no upper-case letter, exactly one `@`, a non-empty local part, and after the `@` a dot with non-empty text on both sides of the first such dot |
| `Cleaning.ValidateEmailIdempotent` | app.py:36-39 | validating an accepted e-mail again returns the same e-mail |
| `Report.Present` | app.py:128 | `dropna()` is no longer than the column |
| `Report.PresentCounts` | app.py:128 | `dropna()` holds each value exactly as often as the column holds it as a present cell |
| `Report.PresentMembers` | app.py:128 | `dropna()` holds exactly the values present in the column |
| `Report.PresentKeepsOrder` | app.py:128 | `dropna()` is the column with its absent cells deleted: its values, as cells, form a subsequence of the column |
| `Report.Unique` | app.py:128 | `unique()` holds exactly the values of its input |
| `Report.UniqueNoDuplicates` | app.py:128 | `unique()` holds no value twice |
| `Report.UniqueCount` | app.py:102 | the length of `unique()` is the number of distinct values, so the unique list is as long as `nunique()` says |
| `Report.UniqueFirstOccurrenceOrder` | app.py:128 | the values of `unique()` are ordered by the position of their first occurrence in the input |
| `Report.Summarize` | app.py:101-102 | the single pass returns `count()`, `nunique()` and `dropna().unique()` of the column, with unique count = list length <= valid count <= rows |
| `Report.ReportBounds` | app.py:98-108 | the valid count is at most the row count, the unique count at most the valid count, and both are 0 when every cell is absent |
| `Processing.ColumnOf` | app.py:89-130 | `df_processed[col]` as read at lines 89, 91, 101-102, 107-108, 128 and 130: one cell per row, the row's cell under that name, or absent where the row lacks that column |
| `Processing.MapCells` | app.py:89-91 | `apply(f)` gives a column as long as its input whose cell `i` is `f` of input cell `i` |
| `Processing.Tag` | app.py:61 | every row of a read workbook gets `_sourceFile` set to the file name and keeps its other columns with their values |
| `Processing.Loaded` | app.py:56-62 | reference definition of the `df_list` the upload loop builds: the tagged sheets of the files that could be read, in upload order; never more tables than files |
| `Processing.LoadedFromUploads` | app.py:56-62 | every table in `df_list` is the sheet of an uploaded file that could be read, tagged with that file's name |
| `Processing.TotalRows` | app.py:55-60 | reference definition of `total_rows_initial`: the sum of the read sheets' lengths, so at least the length of each of them |
| `Processing.Concat` | app.py:67 | `pd.concat(df_list, ignore_index=True)`: a row is in the result exactly when it is a row of one of the tables |
| `Processing.ConcatAt` | app.py:67 | row `k` of table `i` is row `TotalRows(tables[..i]) + k` of the concatenation: with `TotalRowsIsConcatLength`, the tables' rows appear in upload order, each once |
| `Processing.FailedUploadAddsNothing` | app.py:57-64 | a file that cannot be read adds no table and no rows |
| `Processing.ReadUploadAddsItsRows` | app.py:59-62 | a file that is read adds its tagged table and its row count |
| `Processing.TotalRowsIsConcatLength` | app.py:55-67 | the sum of the tables' lengths is the length of their concatenation |
| `Processing.LoadUploads` | app.py:54-67 | the loop keeps the tagged tables that could be read, in order; its row counter equals their total length and the length of their concatenation; `df` exists exactly when some file was read |
| `Processing.Frame.Copy` | app.py:86 | the copy holds the rows of the input table |
| `Processing.Frame.Assign` | app.py:89-91 | assigning a column sets it in every row and leaves every other column unchanged |
| `Processing.EmailSource` | app.py:88-91 | the column `df_processed[email_col]` holds when line 91 reads it: one cell per row, and the input column itself unless the e-mail selector names the `cleanPhone` column just written |
| `Processing.Metrics` | app.py:97-109 | the metric names in the order appended: the row count first, at most five names, both phone lines (valid and unique) present exactly when a phone column is chosen, and both e-mail lines exactly when an e-mail column is chosen |
| `Processing.CleanColumns` | app.py:86-91 | `cleanPhone` is `clean_phone` of the phone column, `validEmail` is `validate_email` of the e-mail column as it stands after the phone column is written; unselected columns are not added and all other columns are unchanged |
| `Processing.QualityReport` | app.py:96-130 | metric names in the source's order; the first value is the row count; for each selected column the valid and unique counts, bounded by each other and the row count, and its unique list; no line and no list for an unselected column |

## Left out

- The Streamlit interface (page setup, titles, uploader, selectors, button, spinner, tables shown, download button, balloons): presentation only.
- Reading and writing Excel (`pd.read_excel`, `pd.ExcelWriter`, `io.BytesIO`), the sheet names and the column renaming of the output workbook: file I/O through libraries. A workbook's reading is a parameter: the table it gave, or `None` when reading raised.
- The error message shown for a file that cannot be read: the model keeps only its effect, that the file adds no rows.
- `pd.isna` and the `str()` rendering of non-text cells (a float cell renders with a `.0`): a cell is taken as already absent or rendered as text.
- The timestamp from `datetime.now()`: non-deterministic and used only in the download's file name.
- The index of the data frames (`ignore_index=True`): rows are kept as a sequence.
- `Cleaning.Lower`: lower-cases ASCII letters only; Python's `str.lower()` also maps non-ASCII letters, a few of them (such as the Kelvin sign) to ASCII letters the e-mail pattern would then accept.
- `Cleaning.Digits`: keeps ASCII digits only; Python's `\D` in a text pattern also keeps the other Unicode decimal digits.
- `Processing.Frame.Assign`: requires a column as long as the frame, where pandas would align a series by index; every call assigns a column computed from the same frame.
