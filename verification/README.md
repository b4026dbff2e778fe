# Order-portfolio analysis, modelled in Dafny

The system reads an order-portfolio spreadsheet ("carteira"), with one row per
order line, and lists the order lines that are ready to ship (a lot has been
allocated) and belong to a (FILIAL, CLIENTE) pair whose ready tonnage reaches
a minimum. Each line is marked "Atrasado" (overdue) or "No Prazo" (on time),
with its days of delay, and the report is sorted by delay (descending), then
manager, then customer. A manager drop-down restricts the analysis to one
manager, or to none with "TODOS OS GERENTES".

Four programs carry this analysis, `processar_dados`. They differ chiefly in how
they find the seven columns, so the model has one pipeline with a column
layout parameter (`Pipeline.LayoutOf`). analise_carteira.py also compares
delivery dates with a time-of-day "today"; "## Left out" says how the model
treats that.

| program | layout |
|---|---|
| analise_carteiraSLV3.py | `ByHeader("TONS")`: first of the first ten rows holding FILIAL, GERENTE, PEDIDO, CLIENTE, LOTE, TONS, ENTREGA |
| analise_carteiraSLV2.py | `ByHeader("TON")`: the same search with TON |
| analise_carteira.py | `ByPosition`: columns 0, 3, 5, 9, 15, 24, 29; the first row is dropped when its TON cell reads "TON" |
| analise_carteiraSL.py | `ByPosition`, as above |

Modules, in pipeline order:

- `Text`: Python's `str.strip()` over the full whitespace set, ASCII upper-casing and Python's string order.
- `Cells`: the sheet as cells (`Blank` for NaN, `Num`, `Str`) in a table with a column count.
- `Header`: the bounded first-match header search.
- `Columns`: both column layouts, producing raw seven-field records or a `Problem`.
- `Cleaning`: `dropna(how='all')` on FILIAL, CLIENTE and PEDIDO, tonnage coercion, date parsing, manager fill and trim, lot trim.
- `Readiness`: the lot rule and the manager filter.
- `Volume`: the per-pair totals and the inner merge, written as a semi-join.
- `Delay`: the overdue classification.
- `Report`: row assembly and the three-key sort.
- `Pipeline`: `Process`, which composes the above into one of four outcomes. They are a report, "no ready material", "no customer reached the minimum", or an error.
- `Managers`: the drop-down options for both layouts.
- `Seqs` and `Wrappers`: a generic filter and the `Option`/`Result` types.

Abstractions are passed in as parameters:

- `str()` of a number, `to_numeric` of a text and the day-first `to_datetime` of a cell are the fields of a `Conversions` record.
- "Today" is an integer day number, and every delivery date is one too.

## Model

| member | source | states |
|---|---|---|
| Header.FindHeader | analise_carteiraSLV3.py:13-18 | The result is the first row among the first ten (and among the rows that exist) whose trimmed, upper-cased cells contain every required label. No earlier row qualifies. `None` exactly when none of those rows qualifies. analise_carteiraSLV2.py:14-21 is the same search. |
| Columns.SelectByLabels | analise_carteiraSLV3.py:11-29 | "Header not found" exactly when no row of the window carries all seven labels. The only other failure is a duplicate column. When a header row is found, selection succeeds exactly when no label other than FILIAL and CLIENTE names two of its columns. The records are then the rows strictly below the header row, cut down to the first column carrying each label. |
| Columns.RecordsBelow | analise_carteiraSLV3.py:25-29 | Below a found header row, selection fails with a duplicate-column error exactly when a label other than FILIAL and CLIENTE names two columns. Otherwise the records are the following rows projected onto the first column of each label. |
| Columns.HeaderSelectionFields | analise_carteiraSLV3.py:25-29 | On success there is one record per row below the header, in order. Each field is that row's cell in the first column whose normalised header equals the field's label. Every label but FILIAL and CLIENTE names only that column. |
| Columns.RecordsBelowFields | analise_carteiraSLV3.py:25-29 | Below a given header row, accepted records are the rows below it in order. Each field is the cell under the first column carrying its label. |
| Columns.SelectByPosition | analise_carteira.py:12-17 | Fewer than 30 columns is an error, and so is an empty sheet; selection succeeds exactly when neither holds. Field f of record k is then the cell at column 0, 3, 5, 9, 15, 24 or 29 of row k + skip. Skip is 1 exactly when row 0's column-24 cell, trimmed and upper-cased, reads "TON", else 0. analise_carteiraSL.py:9-13 is identical. |
| Cleaning.Clean | analise_carteiraSLV3.py:31-37 | Never more rows than given. Every manager and lot text of the result has no surrounding whitespace. |
| Cleaning.CleanMembership | analise_carteiraSLV3.py:31-37 | A row is in the cleaned table exactly when it is the conversion of a raw row whose FILIAL, CLIENTE and PEDIDO are not all empty. |
| Cleaning.CleanedFields | analise_carteiraSLV3.py:32-35 | An empty GERENTE becomes "SEM VENDEDOR", and any other GERENTE is its trimmed text. An unparsable TONS becomes 0, and a parsable one keeps its value. An empty ENTREGA is undated. |
| Cleaning.CleanAppend | analise_carteiraSLV3.py:31-37 | With each cell converted on its own, cleaning is row-local: cleaning a + b gives cleaning a followed by cleaning b. |
| Cleaning.CleanOne | analise_carteiraSLV3.py:31 | A single row is dropped exactly when FILIAL, CLIENTE and PEDIDO are all empty. |
| Cleaning.CleanIdempotent | analise_carteiraSLV3.py:35-37 | Trimming a cleaned manager or lot again changes nothing. |
| Readiness.Ready | analise_carteiraSLV3.py:38-41 | A row is ready exactly when its trimmed lot is none of "", "nan" and "0" and, unless "TODOS OS GERENTES" is chosen, its manager equals the chosen one exactly. With one manager chosen, every kept row is that manager's. |
| Readiness.ManagerRestricts | analise_carteiraSLV3.py:40-41 | Choosing a manager yields exactly that manager's rows of the all-managers result, in order. |
| Readiness.ReadyIsOneFilter | analise_carteiraSLV3.py:38-41 | The lot filter and manager filter in sequence equal one filter on their conjunction, preserving the cleaned order. |
| Volume.Totals | analise_carteiraSLV3.py:47 | One entry per pair present whose FILIAL and CLIENTE are both non-empty. Each entry's total equals the reference sum of that pair's tonnage. |
| Volume.QualifyingKeys | analise_carteiraSLV3.py:47-48 | A pair qualifies exactly when it is present, groupable, and its total is at least the minimum. |
| Volume.QualifiedMembership | analise_carteiraSLV3.py:47-54 | A ready row survives the merge exactly when its pair is groupable and the whole pair's ready tonnage reaches the minimum. |
| Volume.Qualified | analise_carteiraSLV3.py:54 | The inner merge keeps a row exactly when its pair is among the qualifying pairs, and never adds or repeats a row. |
| Volume.QualifiedWholeGroups | analise_carteiraSLV3.py:54 | Pairs survive as a whole: if one row of a pair survives, every row of the pair does. |
| Volume.NoKeysIffNoRows | analise_carteiraSLV3.py:48-54 | No qualifying pair exactly when no row survives the merge. |
| Volume.ThresholdMonotone | analise_carteiraSLV3.py:48 | Raising the minimum shrinks the qualifying pairs and the surviving rows, as sets, multisets and lengths. |
| Volume.ZeroTonRowSurvives | analise_carteiraSLV3.py:47-54 | A 0-ton row whose pair reaches the minimum survives alongside its 30-ton partner at a 28-ton minimum. |
| Delay.Classify | analise_carteiraSLV3.py:56-60 | Overdue exactly when the delivery day exists and is before today. Overdue days are today minus delivery. The day count is positive exactly when overdue, and 0 otherwise, including when undated. |
| Delay.ClassifyExamples | analise_carteiraSLV3.py:56-60 | Due yesterday gives 1 day overdue. Due today gives on time with 0 days. Undated gives on time with 0 days. |
| Delay.DelayGrowsWithToday | analise_carteiraSLV3.py:57-59 | A later "today" never lowers a row's day count and never turns an overdue row back to on time. |
| Report.AssembleRow | analise_carteiraSLV3.py:62-64 | Every report line has an empty "Ação", and an on-time line has 0 days. |
| Report.RowLeTotal | analise_carteiraSLV3.py:65 | Any two lines are ordered one way or the other by (days descending, manager ascending, customer ascending). |
| Report.RowLeTransitive | analise_carteiraSLV3.py:65 | That three-key order is transitive. |
| Report.SortRows | analise_carteiraSLV3.py:65 | The sort result is ordered by the three keys and is a permutation of its input. |
| Report.Insert | analise_carteiraSLV3.py:65 | Inserting a line into a sorted report keeps it sorted and adds exactly that line. |
| Report.AssembleReport | analise_carteiraSLV3.py:62-65 | The report is sorted, has one line per qualified row, and is a permutation of the assembled rows. |
| Report.ReportKeepsRows | analise_carteiraSLV3.py:54-64 | A line is in the report exactly when it is the assembly of some qualified row. |
| Pipeline.Process | analise_carteiraSLV3.py:7-73 | A run that produces a report produces a non-empty, sorted one, and only when no grouping key (FILIAL, CLIENTE) is repeated in the header. |
| Pipeline.Analyse | analise_carteiraSLV3.py:43-65 | The steps after the ready filter never raise an error, and a report they produce is non-empty and sorted. |
| Pipeline.AnalyseOutcome | analise_carteiraSLV3.py:43-52 | "No ready material" exactly when no row is ready. "No customer reached the minimum" exactly when rows are ready but no ready row's pair reaches the minimum. |
| Pipeline.ProcessOutcome | analise_carteiraSLV3.py:20-52 | Error exactly when column selection fails, or when rows are ready and the header repeats FILIAL or CLIENTE; the latter is the grouping error. "No ready material" exactly when selection succeeds and no row is ready, even with a repeated FILIAL or CLIENTE. "No customer reached the minimum" exactly when rows are ready, no grouping key is repeated, and none belongs to a pair reaching the minimum. analise_carteiraSLV2.py:47-51 has the same order of checks. |
| Pipeline.ReportLine | analise_carteiraSLV3.py:47-64 | A line is in the report exactly when it is the assembly of a ready row whose pair reaches the minimum. |
| Pipeline.AnalyseReport | analise_carteiraSLV3.py:47-65 | Every report line is the assembly of a qualifying ready row, and every such row has one. Each line has an empty action, the "Situação" text "Atrasado" exactly when dated before today, and 0 days when on time. Each carries a ready row's manager. |
| Pipeline.LineFacts | analise_carteiraSLV3.py:56-64 | Each line of the analysis report has an empty action, "Atrasado" exactly when dated before today, 0 days when on time, and the manager of a ready row. |
| Pipeline.ProcessReport | analise_carteiraSLV3.py:38-65 | The report holds exactly the ready rows whose pair reaches the minimum. Every line has an empty action. Its "Situação" text is "Atrasado" exactly when dated before today, with 0 days when on time. Every line belongs to the chosen manager when one is chosen. |
| Pipeline.AnalyseThresholdMonotone | analise_carteiraSLV3.py:47-54 | If a higher minimum yields a report from the same ready rows, a lower one does too, containing every line of the first and at least as many. |
| Pipeline.ProcessThresholdMonotone | analise_carteiraSLV3.py:47-54 | If a higher minimum yields a report, a lower one does too, containing every line of the first and at least as many. |
| Pipeline.ProcessHeaderNotFound | analise_carteiraSLV3.py:13-23 | With a header layout, the run fails with "header not found" exactly when none of the first ten rows carries all seven labels. |
| Pipeline.ProcessDuplicateColumn | analise_carteiraSLV3.py:20-37 | With a header layout, the run fails with a duplicate-column error exactly when a header row is found and a label other than FILIAL and CLIENTE names two of its columns. |
| Pipeline.ProcessHeaderAccepted | analise_carteiraSLV3.py:20-52 | With a header layout whose header row is found and repeats no such label, selection succeeds. The run then errs only with the grouping error, and exactly when rows are ready and the header repeats FILIAL or CLIENTE. |
| Pipeline.ProcessFixedLayoutErrors | analise_carteira.py:12-17 | With the fixed layout, the run fails exactly when the sheet has fewer than 30 columns or no row. |
| Managers.Unique | analise_carteiraSLV3.py:142 | `unique()` yields pairwise-distinct values and loses or adds none. |
| Managers.NamesMembership | analise_carteiraSLV3.py:143 | A name is listed exactly when it is non-empty and is the trimmed text of some cell. |
| Managers.SortNames | analise_carteiraSLV3.py:143 | `sorted` gives an ascending permutation. |
| Managers.InsertName | analise_carteiraSLV3.py:143 | Inserting a name into an ascending list keeps it ascending and adds exactly that name. |
| Managers.SortDistinct | analise_carteiraSLV3.py:142-143 | The corrected sort yields a strictly ascending list with exactly the names of its input. |
| Managers.OptionsAsWrittenContents | analise_carteiraSLV3.py:142-144 | As the programs build it, the list is "TODOS OS GERENTES" followed by ascending, trimmed, non-empty names. Each is the trimmed text of a non-blank cell, and every such non-empty text is listed. A name occurs once for every distinct raw cell value that trims to it. |
| Managers.OptionsAsWritten | analise_carteiraSLV3.py:142-144 | The list as the programs build it: "TODOS OS GERENTES" first, then the names in ascending order (its contents are stated by Managers.OptionsSource). |
| Managers.ListedCount | analise_carteiraSLV3.py:142-143 | Because `unique()` runs before `strip()`, a non-empty name is listed once for every distinct non-blank raw value that trims to it, and the empty name never. |
| Managers.NamesCount | analise_carteiraSLV3.py:143 | Trimming distinct cells lists a non-empty name once for each cell that trims to it. |
| Managers.OptionsCount | analise_carteiraSLV3.py:142-144 | For a slice of a column, the as-written list offers a non-empty name once per distinct non-blank raw value of the slice that trims to it. |
| Managers.DistinctOptionsCount | analise_carteiraSLV3.py:142-144 | For a slice of a column, the corrected list offers a name of the slice exactly once and any other name never. |
| Managers.DuplicateOption | analise_carteiraSLV3.py:142-143 | Cells "ANA" and "ANA " give the options "TODOS OS GERENTES", "ANA", "ANA". |
| Managers.OptionsContents | analise_carteiraSLV3.py:142-144 | The corrected list offers the same names, strictly ascending: an offered name exactly once, any other never. |
| Managers.Options | analise_carteiraSLV3.py:142-144 | The corrected list: "TODOS OS GERENTES" first, then the names strictly ascending, so none twice. |
| Managers.CorrectionKeepsNames | analise_carteiraSLV3.py:142-144 | The corrected and as-written lists offer the same set of names. |
| Managers.ColumnOffered | analise_carteiraSLV3.py:142-143 | A name is offered for a slice of a column exactly when it is the non-empty trimmed text of a non-blank cell of that column at or below the slice's first row. |
| Managers.OptionsSource | analise_carteiraSLV3.py:142-144 | For a slice of a column, the as-written names are ascending and are exactly the non-empty trimmed texts of its non-blank cells. Each occurs once per distinct raw value of the slice that trims to it. |
| Managers.DistinctOptionsSource | analise_carteiraSLV3.py:142-144 | For a slice of a column, the corrected list lists exactly the names of the as-written one, each name of the slice exactly once. |
| Managers.SingleOption | analise_carteiraSLV3.py:142-143 | For "ANA" and "ANA ", the corrected list offers "ANA" once. |
| Managers.PositionalOptions | analise_carteira.py:84-86 | The fixed-layout programs fail exactly when the sheet has fewer than four columns, and otherwise list "TODOS OS GERENTES" first, followed by the as-written list of column 3 below the first row (its contents and repeats are stated by Managers.PositionalOptionsSource). analise_carteiraSL.py:111-113 is identical. |
| Managers.PositionalOptionsSource | analise_carteiraSL.py:111-113 | After "TODOS OS GERENTES", the names are in ascending order, a name is listed exactly when it is the non-empty trimmed text of a non-blank column-3 cell below the first row, and it is listed once per distinct raw value of those cells that trims to it. |
| Managers.HeaderOptions | analise_carteiraSLV3.py:132-146 | The first entry is always "TODOS OS GERENTES". Without a GERENTE label in the first ten rows, it is the only entry. Otherwise the as-written list of the column below that label follows (its contents and repeats are stated by Managers.HeaderOptionsSource). |
| Managers.HeaderOptionsSource | analise_carteiraSLV3.py:134-144 | Names after the first entry exist only when a GERENTE label is found. They are in ascending order. A name is listed exactly when it is the non-empty trimmed text of a non-blank cell below the first GERENTE label, in the first column so labelled, and once per distinct raw value of those cells that trims to it. analise_carteiraSLV2.py:127-136 searches the same way. |
| Managers.HeaderOptionsDistinct | analise_carteiraSLV3.py:132-146 | The corrected header drop-down: "TODOS OS GERENTES" first, and only that without a GERENTE label in the first ten rows. |
| Managers.HeaderOptionsDistinctSource | analise_carteiraSLV3.py:142-144 | The corrected header drop-down lists the same names as the as-written one. Each name of the cells below the first GERENTE label occurs exactly once. |
| Managers.PositionalOptionsDistinct | analise_carteira.py:84-86 | The corrected fixed-layout drop-down fails exactly when the sheet has fewer than four columns, and otherwise lists "TODOS OS GERENTES" first. |
| Managers.PositionalOptionsDistinctSource | analise_carteira.py:84-86 | The corrected fixed-layout drop-down succeeds exactly when the as-written one does. It then lists the same names, each name of the column-3 cells below the first row exactly once. |
| Text.Strip | analise_carteiraSLV3.py:35 | The result starts and ends with no whitespace and is never longer than its input. |
| Text.StripIdempotent | analise_carteiraSLV3.py:35 | Trimming twice equals trimming once. |
| Text.StripRemovesOnlySpace | analise_carteiraSLV3.py:35 | `strip()` yields empty exactly for all-whitespace text. Otherwise it removes exactly the maximal whitespace runs at both ends. |
| Text.TrimRemovesOnly | analise_carteiraSLV3.py:35 | For any character class, trimming gives an empty result exactly when every character is in the class. Otherwise it removes exactly the maximal runs of the class at both ends. |
| Text.LessTotal | analise_carteiraSLV3.py:65 | Python's string order is total. |
| Text.LessTransitive | analise_carteiraSLV3.py:65 | Python's string order is transitive. |

## Findings

| source | as written | input that shows it | evidently intended | confidence | as-written member | corrected member |
|---|---|---|---|---|---|---|
| analise_carteiraSLV3.py:142-143 (also analise_carteiraSLV2.py:134-135, analise_carteira.py:84-85, analise_carteiraSL.py:111-112) | `unique()` runs on the raw cell values before `strip()`, so two values differing only by surrounding whitespace both survive and trim to the same name | a GERENTE column holding "ANA" and "ANA " | each manager offered once in the drop-down | medium; not executed | Managers.OptionsAsWritten, Managers.ListedCount, Managers.DuplicateOption, Managers.HeaderOptions, Managers.PositionalOptions | Managers.Options, Managers.OptionsContents, Managers.SingleOption, Managers.HeaderOptionsDistinct, Managers.PositionalOptionsDistinct |

`Managers.HeaderOptions` and `Managers.PositionalOptions` build the drop-down
as the programs do, so they can offer a name twice. In general a name is
offered once per distinct raw cell value that trims to it (`Managers.ListedCount`,
carried to both layouts by `Managers.HeaderOptionsSource` and
`Managers.PositionalOptionsSource`). `Managers.HeaderOptionsDistinct`
and `Managers.PositionalOptionsDistinct` build it with the correction and offer
the same names once each. Either list filters the same rows, because the
manager filter compares trimmed names.

## Left out

- Reading the workbook, the Streamlit and Tk interfaces, the session cache, and the warning and error messages are left out. The styled Excel export (`to_excel`) is left out too. The model starts from a table of cells and ends at an outcome value.
- Cell conversions are parameters, not models of pandas: `str()` of a number, `to_numeric` of text, and the day-first `to_datetime`. The model fixes only what the code fixes around them: an empty cell renders as "nan", unparsable tonnage is 0, and an empty date is undated.
- Tonnages are reals, not binary floating point. Summation rounding is not modelled.
- Dates are whole day numbers. analise_carteira.py:52-58 compares a time-of-day "today" by calendar date, and the model treats it as the normalised day used by the other three programs. A delivery cell carrying a time of day is not modelled.
- Cells.Normalized upper-cases ASCII letters only. Python's full Unicode `upper()` is not modelled.
- Every exception caught by the catch-all handlers is collapsed into the `Problem` values of the layouts and the grouping. Other failures are not modelled, for example a `str()` that raises.
- Columns.SelectByLabels refuses a repeated GERENTE, LOTE, TONS/TON or ENTREGA label, as the cleaning steps at analise_carteiraSLV3.py:32-37 fail on a two-column selection. It also refuses a repeated PEDIDO, which the program accepts and shows as two report columns; the report line has one PEDIDO field, so that case is not modelled.
- Pipeline.Process reads a repeated FILIAL or CLIENTE label from its first column. Such a label fails only at the grouping (analise_carteiraSLV3.py:47), after the check for ready rows. The model follows that order. But the program's `dropna` at analise_carteiraSLV3.py:31 looks at every copy of a repeated label, while the model looks at the first copy. A row whose first FILIAL copy, CLIENTE and PEDIDO are empty but whose second FILIAL copy is not is dropped by the model and kept by the program. That can turn the program's grouping error into the model's "no ready material".
- Cleaning.Clean converts each ENTREGA cell on its own, through the `parseDay` field of `Conversions`. pandas 2 `to_datetime(dayfirst=True)` on a text column infers one format from the first non-empty text and makes texts in another format undated: in the column "13/01/2024", "2024-01-14", the second row is undated although it parses on its own. That column-wide inference is not modelled. Cleaning.CleanAppend holds only under the per-cell parse.
- Report.SortRows states sortedness and permutation, not the order among lines that tie on all three keys.
- Report.CellLess orders numbers before text and empty cells last when a CLIENTE column mixes kinds. This follows no promise of the code, which may instead fail on mixed kinds.
- Volume.Key compares FILIAL and CLIENTE cells by value and kind, so `Num(1.0)` and `Str("1")` are different pairs.
- The manager drop-down's own header search reads only the GERENTE label. It is modelled separately from the seven-label search of the analysis.
