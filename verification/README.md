# Tip-Assist core in Dafny

Tip-Assist is a small web tool for splitting a store's pooled cash tips
among its partners (employees) in proportion to their tippable hours. The
user photographs a schedule. An OCR service reads the schedule's tables.
The server picks the table that looks like a partner list and reads a name,
a partner number and hours from each row. The browser keeps the resulting
list, which the user can edit, extend and prune. On "Calculate" the browser
gives every partner a share of the tips rounded to the cent. It then counts
out each share in $20, $10, $5 and $1 bills from the cash on hand, and
warns when the bills run short. The result can be exported as CSV.

This project models that core as pure Dafny functions over immutable data
and proves what it computes:

- `common.dfy` (module `Common`): `Option`, `Result`, and `Collect`, the
  run through a list of per-row outcomes that stops at the first failure.
- `text.dfy` (module `Text`): the string primitives the core relies on.
  These are `includes`, ASCII `toLowerCase`, joining with a space, `trim`,
  the filter that keeps only digits, `.` and `-`, and `parseFloat` on
  decimal text.
- `tables.dfy` (module `Tables`): `extractPartnersFromTables`. It covers
  header and data cells, keyword scoring, best-table selection, column
  mapping, grouping cells into rows and reading one partner per row.
- `tips.dfy` (module `Tips`): the proportional allocation of
  `calculateTips`, in integer cents.
- `denominations.dfy` (module `Denominations`): the greedy bill breakdown
  of `distributeDenominations`.
- `csv.dfy` (module `Csv`): `escapeCSV`, with a CSV field reader to state
  its round trip against.
- `session.dfy` (module `Session`): the partner list and the id counter.
  It covers importing extracted partners, adding, deleting, editing a cell
  and calculating.

Modelling choices:

- Money is in integer cents. `Math.round(x * 100) / 100` on dollars is
  `RoundHalfUp` on cents. `Math.round` rounds halves towards positive
  infinity.
- A shortage of more than 0.5 dollars is a shortage of more than 50 cents.
- Hours are exact reals.
- A partner id `p<n>` is kept as the number `n`.
- Bill counts are `int`, not `nat`, because the source never rejects a
  negative count typed into the cash fields.
- JavaScript's `undefined` for a table row that has no cell in a mapped
  column is `None`. The `TypeError` that `.replace`/`.trim` then throws is
  `Failure(MissingMappedCell)`.

What the code does, which the model follows:

- Only the single best-scoring table is read. Tables are not merged,
  partners are not de-duplicated by number, and there is no positional
  fallback when no header is recognised.
- Column mapping looks only for "name", "number" and "hour". "Tippable",
  "#" and "partner" map nothing. When two header cells map the same field,
  the later one wins.
- Negative hours are kept: "-3" reads as -3 hours.
- The one-point size bonus needs at least 3 rows and at least 3 columns.
- Ones are counted with `Math.round`, so a partner can receive up to 50
  cents more than owed. Paid never exceeds owed by more than 50 cents, and
  the warning shows exactly when someone is short by more than 50 cents.
- `escapeCSV` quotes a field for a comma, a double quote or a line feed.
  Unlike section 2 of RFC 4180, it does not quote a field that contains
  only a carriage return.
- The cash counts are read and recorded but never reduced. Bills come from
  a copy, so each calculation starts from the full count.

## Model

| member | source | states |
|---|---|---|
| Common.Collect | netlify/functions/ocr.js:96-113 | a run without failure yields at most one value per outcome |
| Common.Present | netlify/functions/ocr.js:96-113 | the positions of the outcomes that carry a value, strictly ascending, and every such position |
| Common.CollectFails | netlify/functions/ocr.js:96-113 | the run fails exactly when some outcome is a failure |
| Common.CollectInOrder | netlify/functions/ocr.js:96-113 | a run without failure yields the carried values in the order of their outcomes, one per outcome that carries one |
| Common.CollectNothing | netlify/functions/ocr.js:96-104 | outcomes that all carry nothing yield nothing |
| Text.ToLower | netlify/functions/ocr.js:45 | lower-casing keeps the length, maps every character through the ASCII case map and leaves no upper-case ASCII letter |
| Text.JoinSpace | netlify/functions/ocr.js:45 | the joined text starts with the first text, a space follows it when there is a second, and the result is at least one character per separator long |
| Text.ContainsAcrossSpace | netlify/functions/ocr.js:45-51 | a keyword without a space occurs in `a + " " + b` exactly when it occurs in `a` or in `b` |
| Text.JoinSpaceContains | netlify/functions/ocr.js:45-51 | a keyword without a space occurs in the space-joined texts exactly when it occurs in one of them, so a keyword never straddles two header cells |
| Text.Trim | netlify/functions/ocr.js:109-110 | the trimmed text has no white space or line terminator at either end and is the input with only such characters removed from its two ends |
| Text.TrimIdempotent | netlify/functions/ocr.js:109-110 | trimming twice is trimming once |
| Text.TrimOfTrimmed | netlify/functions/ocr.js:109-110 | text with no space at either end is left unchanged by trimming |
| Text.KeepNumeric | netlify/functions/ocr.js:106 | the hours filter leaves only digits, `.` and `-`, and never lengthens the text |
| Text.KeepNumericAppend | netlify/functions/ocr.js:106 | the filter distributes over concatenation, so it keeps the order of the characters it keeps |
| Text.KeepNumericOfNumeric | netlify/functions/ocr.js:106 | text made only of digits, `.` and `-` passes through the filter unchanged |
| Text.KeepNumericIdempotent | netlify/functions/ocr.js:106 | filtering twice is filtering once |
| Text.KeepNumericKeepsAll | netlify/functions/ocr.js:106 | every digit, `.` and `-` of the input survives the filter as many times as it occurs |
| Text.LeadingDigits | netlify/functions/ocr.js:106 | the digits `parseFloat` reads form the longest all-digit prefix |
| Text.ParseDecimalPrefix | netlify/functions/ocr.js:106 | `parseFloat` gives NaN exactly when, after an optional sign, the text neither starts with a digit nor with `.` followed by a digit; a negative value needs a leading minus sign |
| Text.ParseScientific | src/main.js:206 | digits, `e` and digits read as the first number times ten to the power of the second, so "1e1" reads as 10 |
| Text.ParseHours | netlify/functions/ocr.js:106 | the hours of a cell are negative only when the filtered text starts with a minus sign |
| Text.ParseHoursWithoutDigits | netlify/functions/ocr.js:106 | an hours cell without any digit reads as 0 hours |
| Text.ParseHoursNegative | netlify/functions/ocr.js:106 | a minus sign before digits is honoured: `-d` reads as minus the value of `d` |
| Text.ParseDigits | src/main.js:205-206 | a run of digits parses as its decimal value |
| Tables.HeaderCells | netlify/functions/ocr.js:44 | a cell is a header cell exactly when it is a column header or lies in row 0 |
| Tables.DataCells | netlify/functions/ocr.js:83-85 | a cell is a data cell exactly when it is not a column header and lies below row 0 |
| Tables.HeaderCellsAppend | netlify/functions/ocr.js:44 | selecting header cells distributes over concatenation, so header cells keep their order |
| Tables.DataCellsAppend | netlify/functions/ocr.js:83-85 | selecting data cells distributes over concatenation, so data cells keep their order |
| Tables.HeaderDataPartition | netlify/functions/ocr.js:44-85 | every cell is a header cell or a data cell and never both |
| Tables.Score | netlify/functions/ocr.js:47-55 | a table scores at most 11 |
| Tables.HeaderTextContains | netlify/functions/ocr.js:44-51 | a keyword is found in a table's joined header text exactly when some header cell holds it |
| Tables.ScoreByRules | netlify/functions/ocr.js:47-55 | the score is the sum of the points (partner 3, name 2, number 2, hour 3) of the keywords some header cell holds, plus 1 for a table of at least 3 by 3 |
| Tables.SelectBest | netlify/functions/ocr.js:38-65 | a chosen table is one of the input tables, has cells and scores above zero |
| Tables.SelectBestMaximal | netlify/functions/ocr.js:38-65 | the chosen table scores at least as high as every table with cells and strictly higher than every earlier one; there is no choice exactly when every table with cells scores zero |
| Tables.Classify | netlify/functions/ocr.js:74-80 | a header is the name column when it says "name" but not "number", the number column when it says "number", the hours column when it says "hour" and neither of the others |
| Tables.MapColumns | netlify/functions/ocr.js:67-81 | a field is left unmapped exactly when no header cell is classified as that field |
| Tables.MapColumnsLast | netlify/functions/ocr.js:67-81 | each field is mapped to the column of the last header cell classified as that field, and is unmapped when none is |
| Tables.LastClassifiedHit | netlify/functions/ocr.js:74-80 | a header cell classified as a field becomes that field's last classified cell |
| Tables.LastClassifiedMiss | netlify/functions/ocr.js:74-80 | a header cell classified otherwise leaves the field's last classified cell as it was |
| Tables.MapColumnsLaterWins | netlify/functions/ocr.js:67-81 | a header cell classified as a field, with no later header cell classified the same, gives that field its column |
| Tables.MapColumnsNone | netlify/functions/ocr.js:70-81 | header cells that name no field leave every field unmapped |
| Tables.InsertSorted | netlify/functions/ocr.js:97 | adding a row index keeps the index list strictly ascending and adds exactly that index |
| Tables.RowIndices | netlify/functions/ocr.js:87-97 | rows are visited once each, in ascending row order, and every data row is visited |
| Tables.RowContent | netlify/functions/ocr.js:87-94 | every cell of the row puts its column into the row's contents |
| Tables.RowContentKeys | netlify/functions/ocr.js:87-94 | a row has a column exactly when some data cell sits at that row and column |
| Tables.RowContentValue | netlify/functions/ocr.js:87-94 | a column a row has holds the content of the last cell at that row and column |
| Tables.RowContentLast | netlify/functions/ocr.js:87-94 | a row has a column exactly when some data cell sits at that row and column, and holds the content of the last such cell |
| Tables.RowContentLaterWins | netlify/functions/ocr.js:83-94 | a data cell with no later data cell at the same row and column gives that row its content for that column |
| Tables.DataRows | netlify/functions/ocr.js:87-97 | there is one row per distinct data row index, and every row holds at least one cell |
| Tables.ReadPartner | netlify/functions/ocr.js:97-112 | a row is skipped exactly when name, number and hours text are all empty or missing; it throws exactly when it is not skipped and a mapped cell is missing; otherwise the partner has the trimmed name and number and the filtered, parsed hours |
| Tables.ReadPartners | netlify/functions/ocr.js:96-113 | at most one partner per row |
| Tables.YieldingRows | netlify/functions/ocr.js:96-113 | the rows that yield a partner, ascending: a row is listed exactly when reading it neither throws nor skips it |
| Tables.ReadPartnersInOrder | netlify/functions/ocr.js:96-113 | when no row throws, the partners are those of the yielding rows, one each, in row order |
| Tables.ReadPartnersTrimmed | netlify/functions/ocr.js:108-111 | every partner read has a trimmed name and number |
| Tables.ReadPartnersFails | netlify/functions/ocr.js:96-113 | reading the rows throws exactly when some row throws |
| Tables.ReadPartnersUnmapped | netlify/functions/ocr.js:98-104 | with no column mapped every row is skipped |
| Tables.ReadPartnerUnmapped | netlify/functions/ocr.js:98-104 | with no column mapped a single row reads as all missing and is skipped |
| Tables.CompleteRowsSucceed | netlify/functions/ocr.js:97-113 | rows with a cell in every mapped column never make the extraction throw |
| Tables.IncompleteRowFails | netlify/functions/ocr.js:98-106 | a row with a non-empty name but no cell in the mapped hours column makes the extraction throw |
| Tables.KeepIdentified | netlify/functions/ocr.js:115 | exactly the partners with a non-empty name or number are kept |
| Tables.KeepIdentifiedAppend | netlify/functions/ocr.js:115 | the filter distributes over concatenation, so kept partners keep their order |
| Tables.KeepIdentifiedSingle | netlify/functions/ocr.js:115 | one partner is kept exactly when it has a non-empty name or number |
| Tables.ExtractPartners | netlify/functions/ocr.js:33-116 | no tables, or no table with cells scoring above zero, gives no partners; every partner returned has a trimmed name and number, one of them non-empty; there are at most as many partners as distinct data rows in the selected table |
| Tables.ExtractPartnersOfSelected | netlify/functions/ocr.js:33-116 | for the selected table, extraction throws exactly when reading one of its data rows throws, and otherwise returns the partners read from its data rows, in order, less those with an empty name and number |
| Tables.ExtractWithoutMappedColumns | netlify/functions/ocr.js:67-104 | when the selected table's header cells name no field (a table headed only "Partner", say) no partner is returned |
| Tips.RoundHalfUp | src/main.js:248 | `Math.round` gives the integer within half of its argument, halves going up |
| Tips.RoundHalfUpUnique | src/main.js:248 | that integer is the only one in the half-open interval around the argument |
| Tips.Allocate | src/main.js:237-256 | the calculation stops exactly when the total hours are zero; otherwise there is one amount per partner, the amounts add up to the tips exactly, every partner but the last is within half a cent of their exact proportional share, and the last gets their rounded share plus the rounding difference |
| Tips.SumExactShares | src/main.js:245-250 | the exact shares of a list of partners add up to that list's hours over the total hours times the tips |
| Tips.RoundingDrift | src/main.js:245-250 | rounding `k` shares moves their sum by at most half a cent per share |
| Tips.AllocateLastGetsRest | src/main.js:252-256 | the last partner gets the total minus what the others got |
| Tips.ExactSharesAddUp | src/main.js:244-250 | the exact shares of all partners but the last, plus the last one's, add up to the tips |
| Tips.AllocatePrefix | src/main.js:252-256 | every amount but the last is that partner's rounded share |
| Tips.AllocateLastNearExact | src/main.js:245-256 | the last partner's amount is within half a cent per other partner of their own exact share |
| Tips.AllocateQuarterExample | src/main.js:237-256 | partners with 10 and 30 hours sharing $100.00 are given $25.00 and $75.00 |
| Tips.AllocateThirdsExample | src/main.js:237-256 | three partners with equal hours sharing $10.00 are given $3.33, $3.33 and $3.34 |
| Denominations.Take | src/main.js:269-282 | a bill count takes what is wanted, or all that is available when that is less |
| Denominations.PayOne | src/main.js:267-296 | one tip is counted out greedily, largest bill first: each bill count is what is still owed divided by the bill (for ones rounded to the nearest dollar), unless fewer are available, in which case all of that bill are taken; the bills come out of the available cash and never overdraw a non-negative count, the cash left plus the bills used is the cash before, the bills are worth at most 50 cents more than the tip, and a shortfall of more than 50 cents leaves no $1 bill |
| Denominations.Distribute | src/main.js:262-298 | one breakdown per partner |
| Denominations.DistributePayouts | src/main.js:262-298 | each breakdown records its partner's tip, is worth at most 50 cents more than it, and the warning is raised exactly when some partner is more than 50 cents short |
| Denominations.DistributeEach | src/main.js:262-298 | each breakdown records its partner's tip and is worth at most 50 cents more |
| Denominations.DistributeWarning | src/main.js:262-298 | the warning is raised exactly when some partner is more than 50 cents short |
| Denominations.DistributeShortOfOnes | src/main.js:262-298 | with no negative tip, the warning is raised only when the $1 bills have run out |
| Denominations.DistributeOnesStayEmpty | src/main.js:262-298 | once the $1 bills are gone, paying non-negative tips leaves none |
| Denominations.DistributeSumsBills | src/main.js:263-285 | the bills handed out plus the bills left equal the cash counted |
| Denominations.DistributeLeavesNonNegative | src/main.js:263-285 | once anyone is paid, or when the count starts non-negative, no bill count is left negative |
| Denominations.DistributeConservesBills | src/main.js:263-285 | the bills handed out plus the bills left equal the cash counted, and a non-negative count is never overdrawn |
| Denominations.PayOneAmple | src/main.js:267-289 | with enough of every bill, a tip is paid in the uncapped greedy counts (`Greedy`) and is off by at most 50 cents either way |
| Denominations.DistributeAmple | src/main.js:262-298 | with no negative tip and enough bills for every partner's uncapped greedy counts (`Greedy`), every partner gets them and no warning is raised |
| Denominations.DistributeAmpleExample | src/main.js:262-298 | $37.00 from one of each bill and ten ones is one twenty, one ten, one five and two ones, with no warning |
| Denominations.DistributeShortExample | src/main.js:262-298 | $37.00 from five ones alone is five ones, with the warning |
| Csv.EscapeField | src/main.js:428-434 | text without a comma, double quote or line feed is written as is; any other text is quoted with its quotes doubled; either way a CSV reader reads back exactly the original text |
| Csv.DoubleQuotes | src/main.js:431 | doubling adds exactly one character per double quote of the input |
| Csv.EscapedBodyOfDoubled | src/main.js:431 | after doubling, every double quote belongs to a doubled pair |
| Csv.UndoubleDoubled | src/main.js:431 | collapsing doubled quotes undoes doubling them |
| Session.InitialValid | src/main.js:1-14 | the page starts with no partners and the id counter at 1, and the id invariant holds |
| Session.Import | src/main.js:140-152 | imported partners replace the list in order, are numbered from the counter on, carry no tip or bills yet, and the ids are distinct and below the advanced counter; an empty import empties the list and keeps the counter |
| Session.Add | src/main.js:218-228 | a blank partner is appended under an id no partner has, and the counter advances by one |
| Session.Without | src/main.js:214 | the filtered list is no longer than the input, and every partner in it comes from the input and has another id |
| Session.WithoutMembers | src/main.js:214 | filtering keeps exactly the partners with another id |
| Session.WithoutUnique | src/main.js:214 | filtering keeps ids distinct |
| Session.WithoutAbsent | src/main.js:214 | filtering out an id no partner has changes nothing |
| Session.WithoutAppend | src/main.js:214 | filtering distributes over concatenation, so order is kept |
| Session.WithoutAt | src/main.js:214 | with distinct ids, filtering out the id at a position removes exactly that entry |
| Session.WithoutAround | src/main.js:214 | filtering out the id of the one partner that has it removes that partner and keeps everyone else in order |
| Session.Delete | src/main.js:212-216 | the list keeps exactly the partners with another id, the id is gone, the id invariant is kept, and the counter, totals and cash counts are unchanged |
| Session.DeleteRemovesOne | src/main.js:212-216 | deleting a present partner shortens the list by one; deleting an absent one leaves the state exactly as it was |
| Session.AddThenDelete | src/main.js:212-228 | deleting the partner just added gives back the list as it was |
| Session.FindIndex | src/main.js:202 | the first partner with the id, or none exactly when no partner has it |
| Session.HoursInput | src/main.js:206 | a non-zero hours value is what `parseFloat` reads from the input, and a negative one needs a leading minus sign; a failed parse gives 0 |
| Session.Edit | src/main.js:197-210 | an unknown id changes nothing; otherwise only the partner with the id changes; the list length, ids, the counter, totals and cash counts and the id invariant are kept |
| Session.EditField | src/main.js:197-210 | the partner with the id changes only in the edited field: names and numbers are stored as typed, hours parsed, tip and bills untouched |
| Session.EditHoursDigits | src/main.js:205-206 | hours typed as plain digits are stored as their value |
| Session.Calculate | src/main.js:230-260 | tips, cash and total hours are recorded; zero total hours raises the alert and leaves the partners as they were; otherwise the list is not empty, the tips add up to the total, and the ids, names, numbers and hours of the partners and the id invariant are kept |
| Session.CalculatePaysFromDistribution | src/main.js:252-260 | the partners receive, in order, the amounts of the tip allocation and the breakdowns of the bill distribution, and the warning is the distribution's |
| Session.CalculateBills | src/main.js:262-305 | each partner's bills record the tip and are worth at most 50 cents more, the warning shows exactly when someone is more than 50 cents short, and the bills fit in a non-negative count |

## Left out

- The browser user interface is not modelled: the DOM, rendering, HTML escaping, alerts, file selection, image preview and `preprocessImage`. The imported, edited and calculated values are parameters of the model's operations.
- The OCR round trip is left out. That covers the request to the service, polling and its timeout, and the HTTP handler. `Tables.ExtractPartners` takes the recognised tables as its argument.
- Building the CSV file and the download are left out; only the field quoting is modelled.
- `toFixed(2)` display formatting is left out.
- Session.Calculate: takes the tips already in cents and the bill counts already as numbers. `parseFloat(...) || 0` on the tips field and `parseInt(...) || 0` on the bill fields are not modelled, and neither are fractions of a cent typed as tips.
- Tips.Allocate: computes exactly in cents and reals. It does not model the rounding drift of binary floating point in `ratio * totalTips` and the `/ 100` that follows.
- Denominations.PayOne: works on exact cents. It does not model floating-point drift in `remaining -= use20 * 20` and the steps after it.
- Text.ParseDecimalPrefix: does not read `Infinity` or leading white space, and an exponent too large or too small for a double gives an exact real rather than `Infinity` or 0. In the table path the filter leaves neither a letter nor white space. In the edit path the value comes from a number input (src/main.js:179), whose value is empty or a valid floating-point number without white space.
- Text.ToLower: lower-cases ASCII letters only, not the full Unicode case map.
- The object key order of `rowsMap` is modelled only for integer row indices, which are the only keys the service produces. `Object.values` visits those in ascending order.
- A missing `table.cells` or a null `tables` is the empty sequence.
- A missing `content` is the empty string.
