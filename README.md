# CSV query tool: a verified model of its query engine

The tool takes a spreadsheet exported as CSV whose real column headers sit on
the second line, normalises the column names, and answers three questions:

- how many projects were done for a company (rows whose `Company` equals the
  input, ignoring case);
- which is the last project done in a country (rows whose `Country` equals the
  input, ignoring case, sorted by `Year` descending, first row kept; "not
  found" when there are none);
- how many projects were done on a topic (rows one of whose `Keyword1` ..
  `Keyword4` cells, lower-cased, contains the lower-cased input).

An empty input gives no answer at all. The model is made of pure functions
over values. The loaded table is an explicit argument of every query, and no
query can change it.

- `text.dfy`, module `Text`: the Python string operations the tool uses.
  These are `str.lower()` and `str.title()` (on ASCII letters), `str.strip()`
  (over Python's whitespace set) and a literal substring test.
- `header.dfy`, module `Header`: column-name normalisation (strip, then
  title-case) and the loading step. The loader drops the first record and
  takes the second as the header.
- `selection.dfy`, module `Selection`: filtering a sequence by a boolean mask,
  as `df[mask]` does.
- `sorting.dfy`, module `Sorting`: sorting by a numeric key, largest first, as
  `sort_values(key, ascending=False)` does.
- `query.dfy`, module `Query`: the row type, the three masks, and the three
  queries.

Behaviour of the code that a reader might not expect:

- Only the empty string short-circuits; text made only of spaces is searched.
- The code raises no error of its own for a Year that is not a number or for
  an absent column; pandas raises `KeyError` for the latter (see below).
- No tie-break is chosen among rows with the same latest Year.
- A missing keyword cell is searched as the text `nan`, not as the empty
  string. That case is outside the model; see below.

## Model

| member | source | states |
|---|---|---|
| Text.IsSpace | app.py:38 | the characters `str.strip()` removes: Python's whitespace set (tab to carriage return, the separators 0x1C-0x1F, space, 0x85, no-break space, ogham space mark, the spaces 0x2000-0x200A, line and paragraph separators, 0x202F, 0x205F and ideographic space) |
| Text.Lower | app.py:54 | `str.lower()` keeps the length, maps each upper-case letter to the lower-case letter at the same place in the alphabet, keeps every other character, and leaves no upper-case letter |
| Text.LowerIdempotent | app.py:73 | lower-casing an already lower-cased input changes nothing |
| Text.SkipSpaceForward | app.py:38 | the scan from the front stops at the first character that is not whitespace, passing only whitespace |
| Text.SkipSpaceBackward | app.py:38 | the scan from the back, never going below the front scan's stop, passes only whitespace and stops after a character that is not whitespace |
| Text.Strip | app.py:38 | `str.strip()`: the result has no whitespace at either end, and the input is the result with only whitespace added on either side |
| Text.StripUnique | app.py:38 | those two properties determine the stripped string uniquely |
| Text.StripKeepsTrimmed | app.py:38 | a string with no outer whitespace is returned unchanged by stripping |
| Text.StripIdempotent | app.py:38 | stripping twice is stripping once |
| Text.StripExample | app.py:38 | `" company "` strips to `"company"` |
| Text.TitleCase | app.py:38 | `str.title()`; keeps the length; its meaning position by position is `TitleCaseAt`, and its other properties are the lemmas below |
| Text.TitleCaseAt | app.py:38 | `str.title()`: a character is lower-cased when the character before it is a letter, and upper-cased otherwise |
| Text.TitleCaseExample | app.py:38 | a letter after a digit starts a new word: `"keyword1a"` becomes `"Keyword1A"` |
| Text.TitleCaseLower | app.py:38 | title-casing changes case only: the lower-cased forms of input and result agree |
| Text.TitleCaseKeepsClasses | app.py:38 | title-casing keeps letters as letters and whitespace as whitespace, position by position |
| Text.TitleCaseIdempotent | app.py:38 | title-casing a title-cased string changes nothing |
| Text.TitleCaseEqualIff | app.py:38 | two strings title-case alike exactly when they are equal up to case |
| Text.TitleCaseKeepsTrimmed | app.py:38 | title-casing never brings whitespace to either end |
| Text.Contains | app.py:76 | the literal substring test of `.str.contains(keyword)`: an empty needle is always found, and a needle longer than the cell never is; `ContainsOccurs` gives its full meaning |
| Text.ContainsOccurs | app.py:76 | the substring scan succeeds exactly when the needle occurs at some position of the cell |
| Header.NormalizeHeader | app.py:38 | a normalised name has no outer whitespace, is its own title case, and equals the stripped original up to case |
| Header.NormalizeHeaderUnique | app.py:38 | those properties pin the normalised name down: it is the title-cased, stripped original |
| Header.NormalizeHeaders | app.py:38 | normalising keeps the number and order of the columns; each name has the three properties above |
| Header.NormalizeHeaderIdempotent | app.py:38 | a normalised name normalises to itself |
| Header.NormalizeHeadersIdempotent | app.py:38 | normalising an already normalised list of column names returns it unchanged |
| Header.SameNormalForm | app.py:38 | two raw names normalise to the same name exactly when, once stripped, they are equal up to case |
| Header.NormalizeHeaderExample | app.py:38 | `" company "` normalises to `"Company"` |
| Header.ReadWithHeaderRow | app.py:34-38 | fewer than two records fail to load; otherwise the first record is dropped, the second gives the normalised columns (same number) and the rest are the data rows in order |
| Selection.Select | app.py:54-77 | `df[mask]` (app.py:54, 64 and 77): never returns more rows than the table has; `SelectPicks` and `SelectCount` pin the result down to the matching rows in table order |
| Selection.SelectMembership | app.py:54 | a row is in the filtered table exactly when it is in the table and the mask holds for it |
| Selection.SelectPicks | app.py:77 | filtering returns the rows at exactly the matching positions, in increasing position order, each once |
| Selection.MatchCountLast | app.py:55 | one more row at the end adds one to the number of matching positions exactly when it matches |
| Selection.SelectCount | app.py:55 | the number of rows filtering returns is the number of table positions whose row matches |
| Selection.SelectAgrees | app.py:76-77 | tables that agree position by position on the mask give the same positions and the same number of rows |
| Sorting.PrependSorted | app.py:66 | putting an element no smaller than the first in front of a sorted sequence keeps it sorted |
| Sorting.InsertDesc | app.py:66 | inserting into a sorted sequence keeps it sorted and adds exactly that element |
| Sorting.SortDesc | app.py:66 | the sort returns the same elements (as a multiset), in non-increasing key order |
| Sorting.FirstIsLargest | app.py:66 | after the sort, the first element is one of the input's and no input element has a larger key |
| Query.Holds | app.py:54-76 | the three masks: Company equal to the input up to case (app.py:54), Country equal up to case (app.py:64), and one of Keyword1..Keyword4, lower-cased, containing the lower-cased input (app.py:75-76); `KeywordMatchMeaning` states the keyword mask by occurrence |
| Query.CountByCompany | app.py:53-55 | empty name gives no result, and any other name gives a result; the rows are exactly those whose Company equals the name up to case, in table order, and the count is their number |
| Query.CompanyMatchIsExact | app.py:54 | a row whose Company only contains the name as a proper part is not returned |
| Query.LastInCountry | app.py:63-70 | empty country gives no result. `NotFound` exactly when no row's Country equals the input up to case. Otherwise one row is returned, from the table, whose Country matches and whose Year is at least that of every matching row |
| Query.CountByKeyword | app.py:73-78 | empty input gives no result, and any other input gives a result; the rows are exactly those one of whose four Keyword cells, lower-cased, contains the lower-cased input, in table order, and the count is their number |
| Query.KeywordMatchMeaning | app.py:76 | a row matches exactly when the lower-cased input occurs at some position of one of its lower-cased Keyword cells |
| Query.KeywordIgnoresOtherColumns | app.py:75-76 | tables that agree on the four keyword columns give the same matching positions and the same count, whatever their other columns hold |
| Query.QueriesIgnoreInputCase | app.py:54-76 | inputs equal up to case give the same answer in all three queries |

## Left out

- The Streamlit interface is not modelled: page setup, widgets, messages, the
  preview, and the table rendering (app.py:4-31, 40-49, 56-59, 67-70, 79-89).
  Only the branch taken (count and rows, one row, `NotFound`, or no result) is
  kept.
- CSV parsing is not modelled. `ReadWithHeaderRow` takes the file as a
  sequence of already-tokenised records. Decoding, quoting, the skipping of
  blank lines, ragged rows and type inference by `pd.read_csv` are left out.
- Header.ReadWithHeaderRow: does not model the renaming `pd.read_csv` applies
  to header cells before they are normalised (app.py:35). A blank cell becomes
  `Unnamed: <position>` and a repeated name gets a `.1`, `.2`, ... suffix, so
  the header `["Company", "", "Company"]` gives `Company`, `Unnamed: 1`,
  `Company.1` in the code but `Company`, the empty name and `Company` here.
  The model normalises the header cells exactly as read.
- Binding the loaded records to typed rows is not modelled. The queries take
  rows with fixed fields (`company`, `country`, `year`, `keyword1` ..
  `keyword4`). So a missing column, which raises `KeyError` in the code,
  cannot be represented. Duplicate column names after normalisation cannot
  be represented either.
- Missing cells (NaN) are not modelled. A NaN Company or Country never
  matches, and a NaN keyword cell is searched as the text `nan`. Every cell is
  a plain string here.
- A Year that is missing or not a number is not modelled: `year` is an `int`.
- Case mapping covers ASCII letters only. Other characters are left as they
  are by `Lower` and `TitleCase`, and count as "not cased" for title-casing.
  Python maps non-ASCII letters too.
- Query.CountByKeyword: tests literal substring containment. pandas
  `str.contains` treats the input as a regular expression by default, so the
  two differ for inputs with regular-expression metacharacters.
- Query.LastInCountry: does not say which of several matching rows with the
  same largest Year is returned. pandas' default sort is not stable.
  `SortDesc` happens to be stable, but no contract relies on that.
