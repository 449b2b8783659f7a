# Invoice field extractor

A model of the invoice field extractor in its two variants. The extended
variant is `extract_filtered_data_with_following_rows` in `debug.py`. The base
variant is `extract_filtered_data` in `ExtractInvoiceData.py`.

The extractor receives the cell grids the PDF table reader returns. In each
table it finds the *anchor rows*: rows with a cell holding "31 Packages" or
"Description of Goods" in any case. It cuts a window of rows starting at each
anchor and reads fields out of the window's positional columns:

- col_1 gives the container mark and the description;
- col_12 gives the HS commodity code and the gross mass;
- col_16, in the extended variant only, gives the item price.

The extended variant also:
- drops "marks" header lines from col_1;
- separates a `1Z…` container number glued to the word "marks";
- falls back to the numbers of col_12 and col_16, minus the gross mass, when col_16 has no price.

The result is one record per anchor, or "no data" when there are no anchors,
or a single `Failed to process the PDF: …` error.

Modules:

- `Text` (`text.dfy`) covers the Python string primitives:
  - the character classes of the patterns;
  - ASCII case folding;
  - maximal runs of a class;
  - `str.strip()`, `" ".join` and `replace('\n', ' ')`.
- `Patterns` (`patterns.dfy`) writes each regular expression as a predicate "matches at position p". `re.search` is modelled as the leftmost such position. Backtracking greedy quantifiers are resolved explicitly.
- `MarksFields` (`marks_fields.dfy`) covers `parse_marks_and_description` and the `1Z…marks` fix-up.
- `CustomsFields` (`customs_fields.dfy`) covers `parse_commodity_and_grossmass`.
- `Numbers` (`numbers.dfy`) covers:
  - `parse_all_numbers`, as a loop method proved against a specification function;
  - `parse_item_price`;
  - `list.remove`.
- `Grid` (`grid.dfy`) holds the reader's output and the shared grid logic:
  - column names and widths;
  - `dropna` on a column of a window;
  - the anchor mask and the document-wide anchor order;
  - the row window.
- `ExtendedExtractor` (`extended_extractor.dfy`) models debug.py's extractor: the per-anchor body, the loop over a table's anchors and the loop over tables.
- `BaseExtractor` (`base_extractor.dfy`) models ExtractInvoiceData.py's extractor, and relates it to the extended one.

Details of the code's behaviour that are easy to misread:

- for `rows_after >= 0` the window is `[i, min(i + rows_after + 1, len))`, so it holds the anchor and at most `rows_after` following rows, fewer at the end of the grid (at most five rows in the base variant); a negative `rows_after` follows Python's slice rule: from −1 down to −i−1 the window is empty, and a stop below zero counts from the end of the grid (see `Grid.WindowEnd` under "Left out");
- the price fallback removes only the first copy of the gross mass (`list.remove`);
- `dropna` keeps cells holding the empty string, so they take part in the space-joined texts; only missing cells are dropped.

A table is a sequence of rows of cells. A row shorter than the longest row has
missing (NaN) cells at its end. The frame's columns are `col_0 … col_{w-1}`,
where `w` is the longest row's length.

## Model

| member | source | states |
|---|---|---|
| Text.Strip | debug.py:128 | the result has no leading or trailing whitespace, is empty exactly when the text is all whitespace, is the text itself when its ends are not whitespace, and holds only characters of the text |
| Text.IsSpace | debug.py:128 | the whitespace of `str.strip()` and `\s`: `str.isspace()`'s characters |
| Text.IsDigit | debug.py:44 | the class `\d`, ASCII digits only |
| Text.IsAsciiLetter | debug.py:53 | the class `[A-Za-z]` |
| Text.IsAlnum | debug.py:20 | the class `[A-Za-z0-9]` |
| Text.IsNumChar | debug.py:67 | the class `[\d,\.]`: a digit, a comma or a dot |
| Text.TrailEnd | debug.py:128 | the right half of `str.strip()`: the end moves left over whitespace only, and stops at the bound or after a non-whitespace character |
| Text.Lower | debug.py:124 | the case folding of `(?i)`, `case=False` and `str.lower()`, ASCII letters only |
| Text.LabelAt | debug.py:20 | a regex literal without metacharacters matches case-insensitively at a position |
| Text.ContainsCI | debug.py:105-107 | `str.contains(lab, case=False)`: the literal matches case-insensitively somewhere |
| Text.RunEnd | debug.py:67 | what a greedy `k*` consumes from position i: every character up to the end is of class k and the next one is not |
| Text.JoinSpaces | debug.py:128 | `" ".join(parts)`: the parts in order, a single space between neighbours, "" for no parts |
| Text.NewlinesToSpaces | debug.py:66 | `replace('\n', ' ')`: same length, every newline becomes a space and every other character stays |
| Text.StripOfPadded | debug.py:124 | stripping whitespace around a word whose ends are not whitespace gives the word |
| Text.TrailEndIs | debug.py:124 | the right strip stops after the last non-whitespace character |
| Text.TrailEndDown | debug.py:124 | the same, from any end beyond it |
| Text.LabelAtShift | debug.py:129 | a literal matches at the same place of a text after any prefix |
| Text.LabelAtLocal | debug.py:129 | a literal that fits inside a text matches the same whatever follows it |
| Text.RunEndLocal | debug.py:129 | a run inside a text whose last character is outside the class ends the same whatever follows |
| Patterns.LeftmostMatch | debug.py:20 | `re.search` returns the first position where the pattern matches; no match means no position matches |
| Patterns.LeftmostAtStart | debug.py:20 | a match at the very front is the one `re.search` returns |
| Patterns.LastAt | debug.py:32 | a greedy quantifier backs off to the largest position in range where what follows can match; with none, there is no match |
| Patterns.LastAtIs | debug.py:32 | the greedy choice is the position where what follows matches and above which it nowhere does |
| Patterns.MatchesAt | debug.py:20-53 | dispatches to the match-at-a-position predicate of each of the six regular expressions below |
| Patterns.ContainerRunAt | debug.py:20 | `(?i)(1Z[A-Za-z0-9]+)(?![A-Za-z0-9])` matches at p exactly when "1Z" in either case sits there followed by an alphanumeric; the greedy maximal run always passes the lookahead |
| Patterns.NumberAndKindAt | debug.py:25 | `(?i)Number and kind\s*(\S+)` matches at p when the label sits there and its whitespace run ends before the end of the text |
| Patterns.DescriptionAt | debug.py:32 | `(?i)Description:\s*(.+)` matches at p when the label sits there and some position in or right after its whitespace holds a non-newline |
| Patterns.DescriptionStart | debug.py:32 | group 1 starts at the last such position, the one greedy `\s*` backs off to |
| Patterns.CommodityDigitsAt | debug.py:44 | `33 Commodity \(HS\) Code(\d+)` matches at p when the label (any case) is followed right away by a digit |
| Patterns.GrossMassAt | debug.py:53 | `35 Gross Mass \(Kg\)[A-Za-z]*(\d+\.\d+)` matches at p when the label is followed by letters and then a decimal number |
| Patterns.GrossMassStart | debug.py:53 | the number starts where the label's letter run ends |
| Patterns.DecimalAt | debug.py:53 | `\d+\.\d+` matches at q exactly when the digit run there is non-empty and followed by a dot and a non-empty digit run |
| Patterns.DecimalEnd | debug.py:53 | the number ends where the second digit run ends |
| Patterns.GluedMarksAt | debug.py:129 | `(?i)(1Z[A-Za-z0-9]+)(marks)` matches at p when a split point exists |
| Patterns.GlueSplit | debug.py:129 | group 1 ends at the last "marks" inside the alphanumeric run after "1Z", one character past "1Z" at the earliest; none when no such "marks" exists |
| Patterns.ProbeAtShift | debug.py:32 | what follows a greedy quantifier is matched the same after any prefix |
| Patterns.LastAtShift | debug.py:32 | the greedy back-off after a prefix is the one without it, moved by the prefix's length |
| Patterns.GlueSplitShift | debug.py:129 | the glue pattern's split after a prefix is the one without it, moved by the prefix's length |
| MarksFields.ContainerNumber | debug.py:20-29 | with a `1Z` run present, the mark starts with "1Z" (either case) and is alphanumeric; otherwise, with "Number and kind" followed by a non-blank, the mark is a non-empty token without whitespace; otherwise it is "" |
| MarksFields.ContainerRunShape | debug.py:20-22 | the maximal run at a `1Z` match starts with "1Z" and is alphanumeric after it |
| MarksFields.TokenShape | debug.py:25-26 | the `\S+` group that starts at a non-blank is non-empty and holds no whitespace |
| MarksFields.DropOfKeepsPrefix | debug.py:23 | dropping the trailing "of" cannot cut into the "1Z" prefix, so the mark stays a `1Z` alphanumeric run |
| MarksFields.DropOfSuffixKeeps | debug.py:23 | a run whose next-to-last character is no "o" or "O" keeps its end |
| MarksFields.PrefixedRun | debug.py:20 | "1Z" in either case followed by alphanumerics is a `1Z` alphanumeric run |
| MarksFields.ContainerOfLeadingRun | debug.py:20-23 | a `1Z` alphanumeric run at the front of the text, ended by a non-alphanumeric, is the mark less one trailing case-insensitive "of" |
| MarksFields.ContainerAfterNumberAndKind | debug.py:24-27 | without any `1Z` run, the mark is the first whitespace-free token after "Number and kind" and its whitespace |
| MarksFields.NumberAndKindGap | debug.py:25 | "Number and kind" and whitespace before a non-blank match, and `\s*` ends where the token starts |
| MarksFields.ContainerOfExample | debug.py:20-23 | "1Z12345OF pkgs" gives "1Z12345" |
| MarksFields.DropOfSuffix | debug.py:23 | `re.sub(r"(?i)of$", "", c)`: the result is a prefix of the mark, exactly two shorter when the mark ends in "of" in either case and the mark itself otherwise |
| MarksFields.DropOfExample | debug.py:23 | "1Z12345OF" becomes "1Z12345" |
| MarksFields.Description | debug.py:32-36 | no "Description:" label gives ""; the description is stripped and never crosses a newline |
| MarksFields.LineRunShape | debug.py:32 | the `.+` group never holds a newline |
| MarksFields.DescriptionAfterLabel | ExtractInvoiceData.py:25-29 | after the label and its whitespace, the description is the rest of the line, trimmed |
| MarksFields.DescriptionGap | debug.py:32 | "Description:" and whitespace before a non-blank match, and group 1 starts right after the whitespace |
| MarksFields.FixFrom | debug.py:129 | without a glued `1Z…marks` from position p on, the text from p is unchanged; the result never gets shorter |
| MarksFields.FixGluedMarks | debug.py:129 | a text without a glued `1Z…marks` is unchanged; the substitution never shortens the text |
| MarksFields.FixFromAtGlue | debug.py:129 | unfolding step of FixFrom at a glued match: the text up to the end of group 1 is kept, " Marks" follows, and scanning resumes after "marks" |
| MarksFields.FixFromAtPlain | debug.py:129 | unfolding step of FixFrom where no glued match starts: the character is kept and scanning moves on by one |
| MarksFields.MarksProbeLocal | debug.py:129 | "marks" cannot match across a non-alphanumeric last character of a text |
| MarksFields.LastAtLocal | debug.py:129 | the greedy back-off inside a text ending in a non-alphanumeric does not see what follows the text |
| MarksFields.GlueSplitLocal | debug.py:129 | a glued match starting inside a text ending in a non-alphanumeric ends inside it, whatever follows |
| MarksFields.FixFromShift | debug.py:129 | the substitution's scan looks only forward: after a prefix it produces what it produces without the prefix |
| MarksFields.FixFromSplit | debug.py:129 | scanning `a + b` from inside `a` is scanning `a`, then `b`, when `a` ends in a non-alphanumeric |
| MarksFields.FixGluedMarksSplit | debug.py:129 | no glued match spans a non-alphanumeric character: the substitution on `a + b` is the substitution on `a` followed by that on `b` |
| MarksFields.GlueSplitOfRun | debug.py:129 | in `1Z` + run + "marks" + a non-alphanumeric, group 1 of the glue pattern ends just before that "marks" |
| MarksFields.GluedRunEnd | debug.py:129 | the alphanumeric run of `1Z` + run + "marks" + a non-alphanumeric ends at that non-alphanumeric |
| MarksFields.NoMarksAfterGlue | debug.py:129 | "marks" follows the run, and no later start inside the alphanumeric run is followed by "marks" |
| MarksFields.GluedMarksSeparated | debug.py:129 | the glued run gets " Marks" put in the place of its "marks" |
| MarksFields.GluedMarksAfter | debug.py:129 | the same for a glued run after any text ending in a non-alphanumeric; that text is fixed up as it would be on its own |
| MarksFields.GluedContainer | debug.py:129-130 | after the fix-up, the mark of such a text is the run itself, less a trailing "of" |
| MarksFields.GluedKeepsRun | debug.py:129-130 | when the run has no "o" as its next-to-last character, the mark after the fix-up is the whole run |
| MarksFields.GluedExample | debug.py:129-130 | "1Z999AA10123456785marks" gives mark "1Z999AA10123456785" |
| CustomsFields.CommodityCode | debug.py:44-51 | the code is all digits; without a labelled digit run it is "" |
| CustomsFields.CommodityAfterLabel | ExtractInvoiceData.py:37-41 | the code is the maximal digit run after "33 Commodity (HS) Code", less its last two digits when it has at least two |
| CustomsFields.CommodityExamples | debug.py:47-51 | "123456" gives "1234" and "1" gives "1" |
| CustomsFields.DropCheckDigits | debug.py:47-51 | `raw[:-2] if len(raw) >= 2 else raw`: a prefix of the digits, two shorter when there are at least two |
| CustomsFields.DecimalOfSlice | debug.py:53 | what the `\d+\.\d+` group captures is digits, a dot, digits and nothing else |
| CustomsFields.GrossMass | debug.py:53-58 | with a match the gross mass is a `digits.digits` number; without one it is "" |
| CustomsFields.GrossMassAfterLabel | debug.py:53-56 | after "35 Gross Mass (Kg)" and any letters, the gross mass is the decimal number that follows |
| CustomsFields.GrossMassAtStart | debug.py:53-56 | a match at the front captures the decimal number at the end of the label and its letters |
| CustomsFields.DecimalShift | debug.py:53 | a `\d+\.\d+` number followed by a non-digit is captured whole wherever it sits |
| CustomsFields.LettersBeforeNumber | debug.py:53 | `[A-Za-z]*` after the label stops where the number starts |
| Numbers.NumericTokens | debug.py:67 | every token is a non-empty run of digits, commas and dots |
| Numbers.TokensOfRun | debug.py:67 | a single run of numeric characters is one token |
| Numbers.TokensSkip | debug.py:67 | a character outside the class starts no token |
| Numbers.TokensTake | debug.py:67 | a run at the front is taken whole, as the first token |
| Numbers.TokensTakeFront | debug.py:67 | the first run of a text stays its first token when what follows the text does not continue the run |
| Numbers.TokensSeparated | debug.py:67 | a character outside the class splits the scan: the tokens of `a + c + b` are those of `a`, then those of `b` |
| Numbers.TokensSeparatedSkip | debug.py:67 | the same, when `a` starts outside the class |
| Numbers.TokensSeparatedTake | debug.py:67 | the same, when `a` starts with a run |
| Numbers.TokensIgnoreNewlines | debug.py:66-67 | turning newlines into spaces never changes the tokens |
| Numbers.TokensOfRuns | debug.py:67 | two runs separated by a space are two tokens, in order |
| Numbers.TokensOfThree | debug.py:67 | three runs separated by spaces are three tokens, in order |
| Numbers.TokensExample | debug.py:67 | "42 31.80 42.50" scans to "42", "31.80", "42.50" |
| Numbers.RemoveChar | debug.py:71 | the character is gone; every other character keeps its count |
| Numbers.RemoveAbsent | debug.py:71 | removing a character that does not occur changes nothing |
| Numbers.RemoveAround | debug.py:71 | removing `c` from `a + c + b` removes it from both sides and drops that occurrence |
| Numbers.KeepNumbers | debug.py:68-73 | a token is kept exactly when it does not collapse to "42"; the list never grows |
| Numbers.KeepConcat | debug.py:68-73 | the filter keeps order: filtering a concatenation is concatenating the filtered parts |
| Numbers.KeepExample | debug.py:70-73 | of "42", "31.80", "42.50" only the first is dropped |
| Numbers.CollapseExamples | debug.py:71 | "42" collapses to "42", "31.80" to "3180" and "42.50" to "4250" |
| Numbers.CollapsePlain | debug.py:71 | a token without commas or dots collapses to itself |
| Numbers.CollapseDecimal | debug.py:71 | a dot between two parts without separators is dropped and the parts are joined |
| Numbers.Collapse | debug.py:71 | `replace(',', '').replace('.', '')`: no comma or dot is left and every other character keeps its count |
| Numbers.IsBoilerplate | debug.py:71 | a token is boilerplate when it collapses to "42" |
| Numbers.CleanedNumbers | debug.py:60-74 | every number is a non-empty numeric run that does not collapse to "42" |
| Numbers.CleanedNumbersIgnoreNewlines | debug.py:66-67 | the numbers are those of the raw text |
| Numbers.ParseAllNumbers | debug.py:66-74 | the loop returns exactly the specified filtered token list |
| Numbers.CleanedNumbersSeparated | debug.py:148-149 | the numbers of `a + " " + b` are those of `a` followed by those of `b` |
| Numbers.CleanedNumbersExample | debug.py:66-74 | "42 31.80 42.50" yields "31.80", "42.50" |
| Numbers.ItemPrice | debug.py:76-82 | the price is "" exactly when the text has no numbers; otherwise it is one of them and never collapses to "42" |
| Numbers.ItemPriceOfJoin | debug.py:81-82 | the price of `a + " " + b` is `b`'s when `b` has numbers, otherwise `a`'s: the last number wins |
| Numbers.LastOr | debug.py:82 | `found[-1] if found else ""` (and `combined_nums[-1]` under `if combined_nums`, debug.py:153-154): the last element, or "" for an empty list |
| Numbers.LastOfConcat | debug.py:82 | the last element of a concatenation is the second part's, unless that part is empty |
| Numbers.FirstIndex | debug.py:151-152 | the position of the first occurrence |
| Numbers.RemoveFirst | debug.py:151-152 | exactly the first occurrence is cut out; the multiset loses one copy |
| Numbers.RemoveFirstCons | debug.py:152 | cutting the first occurrence out of a list whose head differs keeps the head |
| Numbers.FirstIndexCons | debug.py:152 | past a different head, the first occurrence is one further on |
| Numbers.SpliceCons | debug.py:152 | cutting out position `j + 1` of a list is cutting out position `j` of its tail |
| Numbers.MultisetCons | debug.py:152 | removing one copy past a different head keeps the head's count |
| Grid.Width | debug.py:102 | the frame's width is the longest row's length |
| Grid.ColumnCells | debug.py:121 | the column's cells in the window, dropped cells excepted, at most one per row |
| Grid.ColumnCellsMembers | debug.py:121 | each cell comes from a row of the window, and every present cell of the window appears |
| Grid.ColumnCellsFull | debug.py:121 | when every row of the window reaches the column, nothing is dropped and the order is the rows' order |
| Grid.ColumnCellsLocal | debug.py:118 | the cells depend only on the rows of the window |
| Grid.ColumnText | debug.py:133-143 | without the column the text is ""; any text is stripped |
| Grid.HasColumn | debug.py:133 | `col_c` is one of the frame's columns exactly when c is below the width |
| Grid.IsAnchorCell | debug.py:104-107 | a cell holds "31 Packages" or "Description of Goods", case-insensitively |
| Grid.IsAnchorRow | debug.py:104-110 | a row is in the match mask when some present cell is an anchor cell (`.any()`; missing cells count as no match) |
| Grid.AnchorRowsBelow | debug.py:104-110 | the anchor rows below a bound, each once, in increasing order |
| Grid.AnchorRows | ExtractInvoiceData.py:60-61 | exactly the anchor rows, each once, in increasing order |
| Grid.AnchorsOf | debug.py:112 | one anchor per row index of the table, in order |
| Grid.AllAnchors | debug.py:100-112 | every anchor row of every table exactly once, the listed ones all anchors, in table order then row order |
| Grid.AllAnchorsSplit | debug.py:100-112 | the anchors of one more table come after those already listed |
| Grid.NoMissingExtend | debug.py:121 | a table whose anchors found col_1 adds no `KeyError` |
| Grid.MissingCol1 | debug.py:121 | the `KeyError` condition (also ExtractInvoiceData.py:69): some table has an anchor row and no col_1 |
| Grid.WindowEnd | debug.py:113-118 | the window starts at the anchor and never runs past the grid; for `rows_after >= 0` it ends at `min(i + rows_after + 1, len)`; a stop at or below the anchor (but not below zero) gives an empty window |
| ExtendedExtractor.WithoutMarksHeaders | debug.py:122-126 | a line is kept exactly when it is not a "marks" header; with no header all lines stay, in order |
| ExtendedExtractor.WithoutMarksHeadersConcat | debug.py:122-126 | the filter keeps order and repeats: filtering a concatenation is concatenating the filtered parts |
| ExtendedExtractor.WithoutMarksHeadersSnoc | debug.py:123-126 | one more line is appended to the kept lines unless it is a header |
| ExtendedExtractor.FilterMarksHeaders | debug.py:121-126 | the loop keeps exactly the specified lines |
| ExtendedExtractor.MarksHeaderOf | debug.py:124 | "marks" in any case, padded with whitespace, is a header |
| ExtendedExtractor.IsMarksHeader | debug.py:124 | a line is skipped when, stripped, it is "marks" in some case |
| ExtendedExtractor.Col1Text | debug.py:121-129 | the marks parser's input: the lines without headers, joined by spaces, stripped, glued "marks" separated |
| ExtendedExtractor.HeaderThenGlued | debug.py:121-126 | a header line before another line leaves only the other line |
| ExtendedExtractor.GluedWindowExample | debug.py:121-130 | the col_1 lines "MARKS" and "1Z999AA10123456785marks" give mark "1Z999AA10123456785" |
| ExtendedExtractor.FallbackPrice | debug.py:146-154 | the fallback price is the last number of `col12 + " " + col16`, except that when that last number is the only copy of the gross mass it is the number before it, or "" when there is none; so it is one of the numbers, and not a gross mass that occurs once |
| ExtendedExtractor.LastWithoutGrossIs | debug.py:150-154 | removing the first copy of the gross mass and taking the last remaining number, or "", gives that choice on every list |
| ExtendedExtractor.LastAfterCut | debug.py:151-154 | cutting out the first copy of the gross mass leaves the last number last unless it was the only copy |
| ExtendedExtractor.WithoutGross | debug.py:151-152 | with the gross mass present, exactly one copy goes (one element fewer, one copy fewer in the multiset); otherwise the list is unchanged |
| ExtendedExtractor.LastWithoutGross | debug.py:150-154 | the last number left after the removal is one of the numbers, and is not the gross mass when it occurred at most once |
| ExtendedExtractor.Fallback | debug.py:147-154 | the fallback branch, with its in-place removal, computes the specified fallback price |
| ExtendedExtractor.FallbackUsesCol12 | debug.py:146-154 | when col_16 has no numbers, the fallback is the last of col_12's numbers after removing the gross mass once |
| ExtendedExtractor.WindowRecord | debug.py:121-162 | the record of a window's col_1 lines and col_12/col_16 texts: the code is all digits, the gross mass is col_12's ("" or a decimal), the description has no newline; the price is col_16's last number when col_16 has numbers and otherwise the fallback price; a price, when present, is one of the numbers of `col12 + " " + col16` and is not boilerplate |
| ExtendedExtractor.BlockRecord | debug.py:113-162 | the record of the anchor's window; without col_12 it has no commodity code and no gross mass, and without col_12 and col_16 it has no price |
| ExtendedExtractor.EmptyTextFields | debug.py:133-154 | an absent column's "" text yields no code, no gross mass, no price and no fallback price |
| ExtendedExtractor.ExtractBlock | debug.py:112-163 | without col_1 the anchor fails (`KeyError`); otherwise it yields the specified record of its window |
| ExtendedExtractor.TableRecords | debug.py:112-163 | one record per anchor row of the table |
| ExtendedExtractor.ExtractTable | debug.py:112-163 | the anchor loop returns the records so far followed by the table's records, one per anchor in row order; a table without anchors adds nothing; a table with anchors and no col_1 fails |
| ExtendedExtractor.Extract | debug.py:84-171 | a reader error and a missing col_1 give the wrapped error; no anchors give no data; otherwise records correspond one to one to the anchors, in table then row order |
| ExtendedExtractor.RecordsExtend | debug.py:100-163 | appending one table's records keeps that correspondence |
| ExtendedExtractor.BlockLocal | debug.py:113-118 | a record depends only on the rows inside its window and on the table's columns |
| BaseExtractor.FixedWindowEnd | ExtractInvoiceData.py:63-68 | the window holds the anchor and at most four following rows, and is cut only by the end of the grid |
| BaseExtractor.FixedWindowIsDefault | ExtractInvoiceData.py:65-66 | the fixed window is the extended window at `rows_after = 4` |
| BaseExtractor.BaseWindowRecord | ExtractInvoiceData.py:69-78 | the four fields read from a window's col_1 and col_12 texts: the code is all digits, the gross mass is "" or a decimal, the description has no newline |
| BaseExtractor.BaseBlockRecord | ExtractInvoiceData.py:63-81 | the record of the fixed window at an anchor: its col_1 and col_12 texts, read without the header filter or the glue fix-up |
| BaseExtractor.BaseExtractBlock | ExtractInvoiceData.py:63-81 | without col_1 the anchor fails; otherwise it yields the specified four-field record |
| BaseExtractor.BaseTableRecords | ExtractInvoiceData.py:63-81 | one record per anchor row of the table |
| BaseExtractor.BaseExtractTable | ExtractInvoiceData.py:63-81 | the records so far followed by the table's records, one per anchor in row order; a table without anchors adds nothing; a table with anchors and no col_1 fails |
| BaseExtractor.BaseExtract | ExtractInvoiceData.py:50-85 | a reader error and a missing col_1 give the wrapped error; no anchors give `None`; otherwise records correspond one to one to the anchors |
| BaseExtractor.BaseRecordsExtend | ExtractInvoiceData.py:56-81 | appending one table's records keeps that correspondence |
| BaseExtractor.NoCol12NoCustoms | ExtractInvoiceData.py:72-73 | without col_12 the commodity code and the gross mass are both "" |
| BaseExtractor.AgreesWithExtended | ExtractInvoiceData.py:68-73 | where col_1 has no "marks" header and no glued "marks", the base record is the extended record at `rows_after = 4` without its price |

## Left out

- The PDF table reader (`camelot.read_pdf`, debug.py:89-95, ExtractInvoiceData.py:52) is a foreign library. Its output is the input `TableRead`: a list of tables, or the text of the exception it raised.
- The PyQt user interface, the `ProcessPDFThread` worker and the `to_excel` export are left out. They are presentation, concurrency and file output.
- The pandas result frame is modelled as the record list of `Outcome.Data`. Python's `None` is `Outcome.NoData`. The `RuntimeError` is `Outcome.Failed` with its message.
- `.astype(str)` is not modelled. The reader's cells are already strings.
- Case-insensitive matching (`(?i)`, `case=False`, `str.lower()`) is modelled with ASCII case folding only. `\d` and `[A-Za-z0-9]` are ASCII. Python folds the case of non-ASCII letters too, and its `\d` also matches non-ASCII digits.
- Exceptions other than the reader's and the missing col_1 `KeyError` are not modelled. No other step of the extractor can raise on string cells.
- The manifest reconciler (join, Master/Baby expansion, column projection) is not part of this model. No code for it is among the sources.
- MarksFields.ContainerNumber: the contract states the shape of the mark in each branch. The exact value is stated by ContainerOfLeadingRun, ContainerAfterNumberAndKind and GluedContainer for texts of those forms.
- MarksFields.Description: the contract states that the result is stripped and within one line. The exact value is stated by DescriptionAfterLabel for a text starting with the label.
- CustomsFields.CommodityCode: the contract states the form of the result. The exact value is stated by CommodityAfterLabel for a text starting with the label.
- CustomsFields.GrossMass: the contract states the form of the result. The exact value is stated by GrossMassAfterLabel for a text starting with the label.
- Grid.WindowEnd: for a stop below zero (`rows_after < -i - 1`), Python's count-from-the-end slice rule is modelled in the body but stated only as the window bounds. `rows_after` is 4 wherever the source calls the extractor.
