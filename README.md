# Offline DOCX/XLSX reader — document conversion core

This project models the conversion core of an offline Android viewer for
word-processing documents (DOCX) and spreadsheets (XLSX), together with the
selection rules of its main screen.

- `XlsxReader`: every sheet of a workbook becomes a rectangular grid of cell
  display strings. Short rows are padded with empty cells up to the widest
  row. The grid is then rendered as an escaped HTML table and as
  tab-separated text.
- `DocxTextExtractor`: reads the body elements of a document in order.
  Non-blank paragraphs give their right-trimmed text and a newline. Tables
  give one tab-separated line per row and a blank line after the table. The
  result loses its trailing whitespace.
- `DocxReader`: shows that text escaped inside `<pre>`, or an empty
  paragraph for blank text. It also keeps the text, fully trimmed, for copy
  and share.
- `HtmlEscape`: the `escapeHtml` function both readers share. Its two
  Kotlin copies are identical, so they are modelled once.
- `MainActivity`: the rules of the main screen.
  - How a picked document's MIME type is found and which loader it starts.
  - Which sheet of a loaded workbook is shown, and what the sheet picker does.
  - Which entry the font-size and language dialogs pre-select.
  - How the find-in-page query is kept between searches.
- `KotlinStd`: the parts of the Kotlin standard library the code relies on.
  - `trim`, `trimEnd` and `isBlank`, over the JVM whitespace set.
  - `joinToString` and one-character `replace`.
  - `split`, used as a decoder in the proofs.
  - `StringBuilder` as a class with an `append` method, and `ConcatMap`, the
    text a loop leaves in a builder when it appends one piece per element.

The model follows each source file's form:
- the loops of `XlsxReader.parse`, `readRow`, `buildHtmlTable`, `extract` and
  `appendTable` are methods proved against specification functions;
- the expression-only functions are Dafny functions with lemmas;
- the activity fields are a class whose methods update them.

Three behaviours of the code that a reader might expect to be otherwise:
- The word reader renders a document only as plain text in `<pre>`. It
  emits no headings, lists or inline emphasis.
- `parse` stores each sheet's TSV after `trim()`, which removes whitespace
  at both ends of the whole text. Empty cells at the very start of the
  first row and at the very end of the last row therefore disappear, tabs
  included. A 3-cell row above a 1-cell row `value` is stored as
  `"a\tb\tc\nvalue"`, not `"a\tb\tc\nvalue\t\t"` (`XlsxReader.RaggedSheetTsv`).
  A blank first cell loses its column (`XlsxReader.LeadingBlankCellLost`).
- `readRow` reads cell indices below `lastCellNum`, which the spreadsheet
  library defines as one past the last cell, so the last cell is included
  and nothing beyond it.

## Model

| member | source | states |
|---|---|---|
| XlsxReader.ReadRow | app/src/main/java/com/example/offlinedocxxlsxreader/XlsxReader.kt:73-84 | one value per cell index below `lastCellNum` (none when it is negative); an absent cell reads as the empty string |
| XlsxReader.ReadRows | app/src/main/java/com/example/offlinedocxxlsxreader/XlsxReader.kt:29-42 | the rows read are exactly the sheet's rows from first to last (an absent row is empty, none at all when last < first), and `maxColumns` is their largest width |
| XlsxReader.MaxWidth | app/src/main/java/com/example/offlinedocxxlsxreader/XlsxReader.kt:29-42 | the width is at least every row's width, is reached by some row, and is 0 for no rows |
| XlsxReader.Normalize | app/src/main/java/com/example/offlinedocxxlsxreader/XlsxReader.kt:44-50 | the definition of `normalizedRows`: every row padded with `""` up to the given width (`PadRow` per row), one result row per input row |
| XlsxReader.PadRow | app/src/main/java/com/example/offlinedocxxlsxreader/XlsxReader.kt:44-50 | a padded row keeps its cells as a prefix, has exactly the target width when it was shorter (otherwise it is unchanged), and adds only empty cells |
| XlsxReader.NormalizeRectangular | app/src/main/java/com/example/offlinedocxxlsxreader/XlsxReader.kt:44-50 | after padding to the widest row every row has that width, keeps its original cells as a prefix, and the widest width is unchanged |
| XlsxReader.NormalizeIdempotent | app/src/main/java/com/example/offlinedocxxlsxreader/XlsxReader.kt:44-50 | padding an already padded grid changes nothing |
| XlsxReader.GridShape | app/src/main/java/com/example/offlinedocxxlsxreader/XlsxReader.kt:31-50 | a sheet's grid has one row per row index from first to last and is rectangular at the widest row's width |
| XlsxReader.RaggedSheetGrid | app/src/main/java/com/example/offlinedocxxlsxreader/XlsxReader.kt:31-50 | a 3-cell row above a 1-cell row gives a 2 by 3 grid whose second row is the value and two empty cells |
| XlsxReader.AppendCells | app/src/main/java/com/example/offlinedocxxlsxreader/XlsxReader.kt:92-94 | the builder gains each cell, escaped, inside `<td>`/`</td>`, in order |
| XlsxReader.AppendRow | app/src/main/java/com/example/offlinedocxxlsxreader/XlsxReader.kt:91-95 | the builder gains the row inside `<tr>`/`</tr>` |
| XlsxReader.BuildHtmlTable | app/src/main/java/com/example/offlinedocxxlsxreader/XlsxReader.kt:87-99 | the builder loop produces exactly the table markup of the rows |
| XlsxReader.DecodeHtmlTableOf | app/src/main/java/com/example/offlinedocxxlsxreader/XlsxReader.kt:87-99 | the table markup decodes back to exactly the grid it was built from: no cell text can break the table structure |
| XlsxReader.HtmlTableInjective | app/src/main/java/com/example/offlinedocxxlsxreader/XlsxReader.kt:87-99 | two different grids never render to the same markup |
| XlsxReader.SheetHtmlFaithful | app/src/main/java/com/example/offlinedocxxlsxreader/XlsxReader.kt:52-58 | a sheet's page is the wrapped table of its grid, and that table decodes back to the grid |
| XlsxReader.BuildTsv | app/src/main/java/com/example/offlinedocxxlsxreader/XlsxReader.kt:101-105 | the definition of `buildTsv`: per row, the cells with tabs replaced by spaces joined by a tab; the rows joined by a newline |
| XlsxReader.SanitizeCell | app/src/main/java/com/example/offlinedocxxlsxreader/XlsxReader.kt:103 | a cell written to TSV contains no tab |
| XlsxReader.SanitizeCellIdentity | app/src/main/java/com/example/offlinedocxxlsxreader/XlsxReader.kt:103 | a cell without tabs is written unchanged |
| XlsxReader.SanitizeCellBlank | app/src/main/java/com/example/offlinedocxxlsxreader/XlsxReader.kt:103 | replacing tabs with spaces keeps a cell blank exactly when it was blank |
| XlsxReader.TsvLineSplits | app/src/main/java/com/example/offlinedocxxlsxreader/XlsxReader.kt:103 | splitting a TSV line at tabs gives back the row's cells (tabs replaced), so a line has one tab fewer than cells |
| XlsxReader.TsvLineExcludes | app/src/main/java/com/example/offlinedocxxlsxreader/XlsxReader.kt:103 | a TSV line holds no character, other than tab and space, that no cell holds |
| XlsxReader.BuildTsvSplits | app/src/main/java/com/example/offlinedocxxlsxreader/XlsxReader.kt:101-105 | splitting the TSV at newlines gives back one line per row when no cell holds a newline |
| XlsxReader.TsvTabCount | app/src/main/java/com/example/offlinedocxxlsxreader/XlsxReader.kt:101-105 | a grid of width w with n rows has n*(w-1) tabs in its TSV |
| XlsxReader.GridTabCount | app/src/main/java/com/example/offlinedocxxlsxreader/XlsxReader.kt:44-53 | `buildTsv`'s result for a sheet (line 53, before the trim at line 59) has (rows) * (widest width - 1) tabs |
| XlsxReader.StoredTsvTabCount | app/src/main/java/com/example/offlinedocxxlsxreader/XlsxReader.kt:53-59 | when `buildTsv`'s result starts and ends with a non-whitespace character, the stored TSV is that result unchanged and keeps (rows) * (widest width - 1) tabs |
| XlsxReader.LeadingBlankCellLost | app/src/main/java/com/example/offlinedocxxlsxreader/XlsxReader.kt:53-59 | a one-row sheet whose first cell is absent gives `"\tx"` from `buildTsv`, but the stored TSV is `"x"`: the trim removes the empty column |
| XlsxReader.TsvEmptyIffBlank | app/src/main/java/com/example/offlinedocxxlsxreader/XlsxReader.kt:53-59 | the trimmed TSV is empty exactly when every cell of the grid is blank |
| XlsxReader.RaggedRowsTsv | app/src/main/java/com/example/offlinedocxxlsxreader/XlsxReader.kt:101-105 | the padded 2 by 3 grid's TSV ends in the two tabs of the padded cells |
| XlsxReader.RaggedSheetTsv | app/src/main/java/com/example/offlinedocxxlsxreader/XlsxReader.kt:53-59 | for the sheet of a 3-cell row above a 1-cell row, `buildTsv` ends in two tabs and the stored TSV is exactly the text without them |
| XlsxReader.SheetOf | app/src/main/java/com/example/offlinedocxxlsxreader/XlsxReader.kt:52-61 | the definition of one converted sheet: its name, `wrap` of the HTML table of the padded grid, and the `trim()` of that grid's TSV |
| XlsxReader.ReadSheet | app/src/main/java/com/example/offlinedocxxlsxreader/XlsxReader.kt:28-61 | one sheet becomes its name, the wrapped HTML table of its grid and its trimmed TSV |
| XlsxReader.ParsedSheetAt | app/src/main/java/com/example/offlinedocxxlsxreader/XlsxReader.kt:27-62 | the i-th converted sheet is the conversion of the workbook's i-th sheet |
| XlsxReader.ReadSheets | app/src/main/java/com/example/offlinedocxxlsxreader/XlsxReader.kt:25-62 | the sheet loop yields one converted sheet per workbook sheet, in order |
| XlsxReader.Parse | app/src/main/java/com/example/offlinedocxxlsxreader/XlsxReader.kt:20-66 | a workbook the library cannot open throws; otherwise the content holds one converted sheet per workbook sheet, in order |
| HtmlEscape.EscapeHtml | app/src/main/java/com/example/offlinedocxxlsxreader/XlsxReader.kt:107-114 | the definition of `escapeHtml` (the same in `DocxReader.kt:28-35`): five chained `replace` calls for `&`, `<`, `>`, `"` and `'`, `&` first |
| HtmlEscape.EscapeHtmlIsPerCharacter | app/src/main/java/com/example/offlinedocxxlsxreader/XlsxReader.kt:107-114 | the five chained replacements escape each character independently: `&` first, so no entity is escaped twice |
| HtmlEscape.EscapeHtmlAppend | app/src/main/java/com/example/offlinedocxxlsxreader/XlsxReader.kt:107-114 | escaping distributes over concatenation |
| HtmlEscape.EscapeHtmlAllSpecials | app/src/main/java/com/example/offlinedocxxlsxreader/XlsxReader.kt:107-114 | `&<>"'` escapes to `&amp;&lt;&gt;&quot;&#39;` |
| HtmlEscape.UnescapeEntity | app/src/main/java/com/example/offlinedocxxlsxreader/XlsxReader.kt:107-114 | the decoder turns each entity the escaper writes, followed by anything, back into its character |
| HtmlEscape.UnescapeEscapeHtml | app/src/main/java/com/example/offlinedocxxlsxreader/XlsxReader.kt:107-114 | unescaping the escaped text gives the text back |
| HtmlEscape.EscapeHtmlInjective | app/src/main/java/com/example/offlinedocxxlsxreader/DocxReader.kt:28-35 | different texts escape to different markup |
| HtmlEscape.EscapeHtmlNoMarkup | app/src/main/java/com/example/offlinedocxxlsxreader/XlsxReader.kt:107-114 | escaped text contains no `<`, `>`, `"` or `'` |
| HtmlEscape.EscapeHtmlIdentity | app/src/main/java/com/example/offlinedocxxlsxreader/DocxReader.kt:28-35 | text without any of the five special characters is unchanged |
| DocxTextExtractor.ParagraphLineSpec | app/src/main/java/com/example/offlinedocxxlsxreader/DocxTextExtractor.kt:19-28 | a paragraph adds nothing exactly when its (possibly null) text is blank, and otherwise its right-trimmed text and one newline |
| DocxTextExtractor.KeepNonEmpty | app/src/main/java/com/example/offlinedocxxlsxreader/DocxTextExtractor.kt:53 | the definition of `filter { it.isNotEmpty() }`: the non-empty texts, in input order |
| DocxTextExtractor.KeepNonEmptySpec | app/src/main/java/com/example/offlinedocxxlsxreader/DocxTextExtractor.kt:53 | the filter keeps only non-empty texts, all taken from the input, and none exactly when all are empty (that it keeps every non-empty text, in order, is `KeepNonEmptyAppend`) |
| DocxTextExtractor.KeepNonEmptyAppend | app/src/main/java/com/example/offlinedocxxlsxreader/DocxTextExtractor.kt:53 | the filter keeps a single text exactly when it is non-empty, and the filter of a concatenation is the concatenation of the filters, so every non-empty text is kept, in input order |
| DocxTextExtractor.CellText | app/src/main/java/com/example/offlinedocxxlsxreader/DocxTextExtractor.kt:51-54 | the definition of a cell's text: its paragraph texts (`orEmpty().trim()`), the empty ones dropped, joined by a space |
| DocxTextExtractor.TrimmedTextsSpec | app/src/main/java/com/example/offlinedocxxlsxreader/DocxTextExtractor.kt:52 | a cell paragraph's trimmed text is empty exactly when the paragraph is blank, and otherwise has no whitespace at either end |
| DocxTextExtractor.CellTextEmptyIff | app/src/main/java/com/example/offlinedocxxlsxreader/DocxTextExtractor.kt:51-54 | a cell's text is empty exactly when all its paragraphs are blank |
| DocxTextExtractor.CellTextSnoc | app/src/main/java/com/example/offlinedocxxlsxreader/DocxTextExtractor.kt:51-54 | one more paragraph leaves a cell's text unchanged when it is blank; otherwise it appends the paragraph's trimmed text, after a space unless the text so far is empty |
| DocxTextExtractor.CellTextSolid | app/src/main/java/com/example/offlinedocxxlsxreader/DocxTextExtractor.kt:51-54 | a cell's text has no whitespace at either end |
| DocxTextExtractor.CellTextExcludes | app/src/main/java/com/example/offlinedocxxlsxreader/DocxTextExtractor.kt:51-54 | a character in no paragraph of the cell, other than the joining space, is not in the cell text |
| DocxTextExtractor.AppendTable | app/src/main/java/com/example/offlinedocxxlsxreader/DocxTextExtractor.kt:47-63 | the builder gains one line per row: the row's cell texts joined by tabs, then a newline |
| DocxTextExtractor.TableTextNewlines | app/src/main/java/com/example/offlinedocxxlsxreader/DocxTextExtractor.kt:47-63 | a table whose cells hold no newline adds exactly one newline per row |
| DocxTextExtractor.TableContribution | app/src/main/java/com/example/offlinedocxxlsxreader/DocxTextExtractor.kt:30-34 | a table always contributes, even an empty one: when no cell paragraph holds a line break, one line per row and one blank line |
| DocxTextExtractor.Extract | app/src/main/java/com/example/offlinedocxxlsxreader/DocxTextExtractor.kt:11-45 | a document the library cannot open throws; otherwise the text is what the element loop appends, right-trimmed |
| DocxTextExtractor.ExtractedTextSpec | app/src/main/java/com/example/offlinedocxxlsxreader/DocxTextExtractor.kt:43 | the text is a prefix of what was appended, does not end in whitespace, and only whitespace was cut |
| DocxTextExtractor.ContributionsAppend | app/src/main/java/com/example/offlinedocxxlsxreader/DocxTextExtractor.kt:17-40 | the elements contribute independently and in document order |
| DocxTextExtractor.Silent | app/src/main/java/com/example/offlinedocxxlsxreader/DocxTextExtractor.kt:17-39 | a blank paragraph or an element of another kind leaves no trace in the text |
| DocxTextExtractor.ParagraphsContributions | app/src/main/java/com/example/offlinedocxxlsxreader/DocxTextExtractor.kt:17-28 | paragraphs alone append their non-blank right-trimmed texts, each followed by a newline |
| DocxTextExtractor.ParagraphTextsNonEmpty | app/src/main/java/com/example/offlinedocxxlsxreader/DocxTextExtractor.kt:21-23 | every paragraph line kept is non-empty and does not end in whitespace |
| DocxTextExtractor.ParagraphsOnly | app/src/main/java/com/example/offlinedocxxlsxreader/DocxTextExtractor.kt:17-43 | a paragraph-only document's text is its non-blank paragraph texts joined by newlines, with no newline after the last |
| DocxReader.BuildPlainTextHtml | app/src/main/java/com/example/offlinedocxxlsxreader/DocxReader.kt:20-26 | the definition of `buildPlainTextHtml`: `<p></p>` for blank text, otherwise the escaped text inside `<pre>`…`</pre>` |
| DocxReader.PlainTextHtmlRoundTrip | app/src/main/java/com/example/offlinedocxxlsxreader/DocxReader.kt:20-26 | the fragment is `<p></p>` exactly when the text is blank, and then reads back as empty; any other text can be read back exactly from the `<pre>` fragment, before `wrap`, and that fragment's content holds no markup character |
| DocxReader.Parse | app/src/main/java/com/example/offlinedocxxlsxreader/DocxReader.kt:11-18 | a document the library cannot open throws; otherwise the page is the wrapped rendering of the extracted text and the plain text is that text trimmed |
| DocxReader.PlainTextTrimsStartOnly | app/src/main/java/com/example/offlinedocxxlsxreader/DocxReader.kt:16 | since the extracted text has no trailing whitespace, the final trim only strips leading whitespace |
| DocxReader.EmptyPageIffEmptyText | app/src/main/java/com/example/offlinedocxxlsxreader/DocxReader.kt:11-26 | the body fragment, before `wrap`, is the empty paragraph `<p></p>` exactly when the plain text is empty |
| KotlinStd.TrimEnd | app/src/main/java/com/example/offlinedocxxlsxreader/DocxTextExtractor.kt:43 | the definition of `trimEnd()`: drop trailing characters while they are whitespace (JVM `isWhitespace`) |
| KotlinStd.Trim | app/src/main/java/com/example/offlinedocxxlsxreader/XlsxReader.kt:59 | the definition of `trim()`: `trimEnd()` followed by `trimStart()` |
| KotlinStd.TrimEndSpec | app/src/main/java/com/example/offlinedocxxlsxreader/DocxTextExtractor.kt:43 | `trimEnd` keeps a prefix, cuts only whitespace, and leaves no trailing whitespace |
| KotlinStd.TrimStartSpec | app/src/main/java/com/example/offlinedocxxlsxreader/DocxReader.kt:16 | `trimStart` keeps a suffix, cuts only whitespace, and leaves no leading whitespace |
| KotlinStd.TrimSpec | app/src/main/java/com/example/offlinedocxxlsxreader/XlsxReader.kt:59 | `trim` leaves no whitespace at either end and is empty exactly for blank text |
| KotlinStd.BlankIffTrimEndEmpty | app/src/main/java/com/example/offlinedocxxlsxreader/DocxTextExtractor.kt:21-22 | a text is blank exactly when its right-trimmed form is empty |
| KotlinStd.TrimStartBlankPrefix | app/src/main/java/com/example/offlinedocxxlsxreader/DocxReader.kt:16 | left-trimming removes exactly a blank head in front of a text that starts solidly |
| KotlinStd.TrimBlankEnds | app/src/main/java/com/example/offlinedocxxlsxreader/XlsxReader.kt:59 | `trim()` removes exactly a blank head and a blank tail around a text with no whitespace at either end |
| KotlinStd.TrimEndBlankSuffix | app/src/main/java/com/example/offlinedocxxlsxreader/DocxTextExtractor.kt:43 | right-trimming removes exactly a blank tail added after a text that ends solidly |
| KotlinStd.TrimExcludes | app/src/main/java/com/example/offlinedocxxlsxreader/DocxTextExtractor.kt:52 | trimming adds no character |
| KotlinStd.ReplaceChar | app/src/main/java/com/example/offlinedocxxlsxreader/XlsxReader.kt:103 | the definition of `replace` of a one-character string: each occurrence of the character becomes the replacement text, everything else is kept in order |
| KotlinStd.ReplaceCharRemoves | app/src/main/java/com/example/offlinedocxxlsxreader/XlsxReader.kt:103 | replacing a character with text that lacks it removes it entirely |
| KotlinStd.ReplaceCharAbsent | app/src/main/java/com/example/offlinedocxxlsxreader/XlsxReader.kt:109-113 | replacing a character that does not occur changes nothing |
| KotlinStd.ReplaceCharAppend | app/src/main/java/com/example/offlinedocxxlsxreader/XlsxReader.kt:109-113 | replacement distributes over concatenation |
| KotlinStd.ReplaceCharBlank | app/src/main/java/com/example/offlinedocxxlsxreader/XlsxReader.kt:103 | replacing a whitespace character with blank text keeps blankness |
| KotlinStd.JoinToString | app/src/main/java/com/example/offlinedocxxlsxreader/DocxTextExtractor.kt:54 | the definition of `joinToString(separator)`: the parts with the separator between neighbours, empty for no parts |
| KotlinStd.JoinSnoc | app/src/main/java/com/example/offlinedocxxlsxreader/DocxTextExtractor.kt:54 | joining one more part adds the separator and the part |
| KotlinStd.JoinEnds | app/src/main/java/com/example/offlinedocxxlsxreader/DocxTextExtractor.kt:54 | a join of non-empty parts is empty only for no parts, and starts and ends with the outer parts' characters |
| KotlinStd.JoinExcludes | app/src/main/java/com/example/offlinedocxxlsxreader/DocxTextExtractor.kt:54 | a join holds no character that neither the parts nor the separator hold |
| KotlinStd.JoinBlank | app/src/main/java/com/example/offlinedocxxlsxreader/XlsxReader.kt:102-104 | a join with a blank separator is blank exactly when every part is |
| KotlinStd.JoinCount | app/src/main/java/com/example/offlinedocxxlsxreader/XlsxReader.kt:103 | joining n parts free of the separator character puts exactly n-1 of it in |
| KotlinStd.JoinCountUniform | app/src/main/java/com/example/offlinedocxxlsxreader/XlsxReader.kt:102 | joining parts that each hold n of a character absent from the separator gives n per part |
| KotlinStd.SplitJoin | app/src/main/java/com/example/offlinedocxxlsxreader/XlsxReader.kt:102-103 | splitting a join at its one-character separator gives the parts back |
| KotlinStd.CountChar | app/src/main/java/com/example/offlinedocxxlsxreader/XlsxReader.kt:103 | a count is at most the length and is zero exactly when the character is absent |
| KotlinStd.CountCharAppend | app/src/main/java/com/example/offlinedocxxlsxreader/XlsxReader.kt:103 | counts add up over concatenation |
| MainActivity.GuessMimeType | app/src/main/java/com/example/offlinedocxxlsxreader/MainActivity.kt:311-318 | the definition of `guessMimeType`: no segment gives none; otherwise `.docx`, then `.xlsx`, then `.pdf` at the end, ignoring case, gives that type, else none |
| MainActivity.GuessMimeTypeSpec | app/src/main/java/com/example/offlinedocxxlsxreader/MainActivity.kt:311-318 | a name gets the DOCX, XLSX or PDF type exactly when it ends with that suffix, ignoring case, and no type otherwise |
| MainActivity.GuessIgnoresCase | app/src/main/java/com/example/offlinedocxxlsxreader/MainActivity.kt:314-316 | upper-casing the last path segment does not change the guessed type |
| MainActivity.LoaderForSpec | app/src/main/java/com/example/offlinedocxxlsxreader/MainActivity.kt:290-308 | the resolver's type decides when it has one; without it, the suffix picks the loader, and no name means the wrong-format message |
| MainActivity.ViewerState.HandleUri | app/src/main/java/com/example/offlinedocxxlsxreader/MainActivity.kt:290-308 | a known type records the document and its file type and starts that loader; any other type changes nothing |
| MainActivity.FirstNamed | app/src/main/java/com/example/offlinedocxxlsxreader/MainActivity.kt:378 | the first sheet with the name, or none exactly when no sheet has it |
| MainActivity.SelectSheet | app/src/main/java/com/example/offlinedocxxlsxreader/MainActivity.kt:377-379 | the definition of the sheet shown: the first sheet with the remembered name, or else the first sheet |
| MainActivity.SelectSheetSpec | app/src/main/java/com/example/offlinedocxxlsxreader/MainActivity.kt:377-379 | the shown sheet is a workbook sheet; it has the remembered name when any sheet does, and is the first sheet otherwise |
| MainActivity.ViewerState.ShowWorkbook | app/src/main/java/com/example/offlinedocxxlsxreader/MainActivity.kt:365-386 | a failed, missing or empty workbook changes no sheet state; otherwise the workbook is kept and the chosen sheet's name, TSV and page are recorded and shown |
| MainActivity.ViewerState.PickSheet | app/src/main/java/com/example/offlinedocxxlsxreader/MainActivity.kt:181-186 | a position inside the loaded workbook shows that sheet and records its TSV and name; any other position changes nothing |
| MainActivity.IndexOf | app/src/main/java/com/example/offlinedocxxlsxreader/MainActivity.kt:626 | the first position holding the value, or -1 exactly when it is absent |
| MainActivity.FontSizeCheckedItemSpec | app/src/main/java/com/example/offlinedocxxlsxreader/MainActivity.kt:618-626 | the saved zoom's entry when it is offered, otherwise the entry for 100 (index 1) |
| MainActivity.LanguageCheckedItemSpec | app/src/main/java/com/example/offlinedocxxlsxreader/MainActivity.kt:645-647 | the saved language's entry among de, en, nl; German when nothing is saved; the first entry for an unknown code |
| MainActivity.SearchStep | app/src/main/java/com/example/offlinedocxxlsxreader/MainActivity.kt:549-561 | the definition of one search step: the trimmed input clears the search when blank, starts a new search when it differs from the stored query, and then moves to the next match |
| MainActivity.SearchStepSpec | app/src/main/java/com/example/offlinedocxxlsxreader/MainActivity.kt:549-561 | a blank query clears the stored query and the matches; any other query is stored, a new search starts exactly when it differs from the stored one, and repeating it starts none |
| MainActivity.ViewerState.PerformSearch | app/src/main/java/com/example/offlinedocxxlsxreader/MainActivity.kt:549-562 | the stored query and the page request follow `SearchStep` |

## Left out

- The spreadsheet and word-processing library is not part of this model.
  - A workbook is a list of sheets. A sheet has a row map, and a row has a cell map of display strings.
  - A document is its list of body elements.
  - Opening the file is an `Outcome` that may be `Thrown`.
- The data formatter and the formula evaluator are not modelled. A present cell is already its display string.
- Exceptions from a single sheet, row or cell are not modelled.
- The input stream and its closing (`use`) are not modelled.
- `HtmlTemplates.wrap` is a parameter `wrap` of the readers.
- `HtmlTemplates.wrap`: `trimIndent()` runs after the body is inserted, so whitespace indent shared by the body's lines is removed from the page; the round-trip lemmas are about the fragment.
- Android plumbing is left out:
  - content resolver, permissions, coroutines and toasts;
  - WebView calls, which become the returned `Loader`, `shown` page or `SearchEffect`;
  - preferences storage, where a saved value is an `Option`;
  - `uri.lastPathSegment`, which is a parameter.
- PDF rendering, `loadDocx` and `loadPdf` are left out. Only the choice to start them is modelled.
- `MainActivity.ViewerState.ShowWorkbook`: it models the result callback of `loadXlsx` only.
  - The UI reset before the load, including `currentSearchQuery = null`, is left out.
  - So are the adapter contents.
- `MainActivity.ViewerState.PerformSearch`: the count reset after clearing is part of `ClearMatches` and is not modelled separately.
- `MainActivity.GuessMimeTypeSpec`: it states `guessMimeType` with `endsWith(ignoreCase = true)` under ASCII case mapping only (as `MainActivity.GuessMimeType` defines it). Non-ASCII characters whose case forms fold to ASCII letters are not modelled.
- `MainActivity.GuessIgnoresCase`: case is ignored for ASCII letters only, for the same reason.
- Dialog choices after selection (saving the zoom or language) and the other dialogs are left out.
- Integers are unbounded. The readers do no arithmetic that could overflow on realistic sheets. `lastCellNum` is a 16-bit value in the library, and the model takes it as an `int` clamped at 0.
