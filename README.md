# NFe line-item flattener

This project models the extraction core of a small tool for Brazilian electronic invoices (NFe). The tool reads uploaded invoice XML files and flattens each invoice into report rows. There is one row per lot (`rastro`) of every line item (`det`), or one row for an item without lots.

Each row carries:
- the processing date;
- the invoice label `number - series`;
- the supplier;
- the product;
- the quantity share;
- the unit;
- the lot number;
- the repaired expiry date;
- the invoice's product total;
- the operation nature.

The tool processes the uploads of a batch in order and concatenates their rows.

Modules:

- `Wrappers`: `Option`.
- `Text`: the pieces of Python the flattener relies on.
  - `str.split` on one character, and its inverse `join`.
  - `int()` of a date piece.
  - `str()` of a day number.
  - `float()` of a quantity or total.
- `Calendar`: the month length that `calendar.monthrange` returns.
- `Expiry`: `NormalizeExpiry`, the repair of a lot's raw `dVal` text.
  - `Y-M-D` becomes `D/M/Y`.
  - `Y-M` becomes the last day of that month, as `L/M/Y`, or `Data Inválida` when it cannot be read.
  - Anything else is kept as it is.
- `NFe`: `processar_nfe` on one parsed upload.
  - The specification functions are `ReadHeader`, `ReadItem`, `LotRow`, `LotRows`, `ItemRows`, `DocRows` and `Extract`.
  - The method `ProcessNfe` is the source's nested loop, proved equal to `Extract`.
- `Batch`: the loop of `processar_arquivos_xml`.
  - `Aggregate` is the specification.
  - `ProcessBatch` is the loop, proved equal to it.
- `Sample`: one worked line item, ten boxes split over two lots.

The model follows the code in these behaviours:

- **Exceptions escape.** Exceptions the code does not catch are results: `Raised(ValueError | TypeError | AttributeError)`. An exception in any upload aborts the whole batch, because `processar_arquivos_xml` catches nothing. The cases are:
  - a missing `xProd`, `qCom` or `uCom` element raises `AttributeError`;
  - a `dVal` element without text raises `AttributeError` on `.split`;
  - a `vProd` element without text raises `TypeError` in `float(None)`;
  - non-numeric quantity or total text raises `ValueError`.
- **Absent and text-less elements differ.** The element text is an `Option`, as ElementTree's `.text` is `None` for an element without character content. A header element that is present but has no text gives a Python `None` cell, rendered as `None` inside the invoice label. The `Desconhecido` default is used only when the element is absent.
- **Date pieces are reused as written.** A month `02` stays `02`, so `2025-01-15` becomes `15/01/2025` and `2025-01` becomes `31/01/2025`, not `15/1/2025` or `31/1/2025`.

## Model

| member | source | states |
|---|---|---|
| Text.Split | app.py:54 | `split('-')` always yields at least one piece and no piece contains the separator |
| Text.SplitLength | app.py:54 | the number of pieces is the number of separators plus one, which decides the branch taken at lines 55 and 57 |
| Text.JoinSplit | app.py:54 | joining the pieces with the separator gives back the raw text |
| Text.SplitJoin | app.py:54 | splitting the join of separator-free pieces gives back exactly those pieces |
| Text.ParseInt | app.py:59 | `int()` of a piece succeeds exactly when the piece is a non-empty run of decimal digits |
| Text.NatToString | app.py:60 | the day number is written as decimal digits without a leading zero |
| Text.ParseNatToString | app.py:59-60 | reading back the written day number gives the number |
| Text.ParseDecimal | app.py:41 | `float()` of a quantity (and of the total at line 31) as an optional sign, digits and at most one point, valued exactly; what it accepts and yields is stated by `Text.ParseDecimalDigits`, `Text.ParseDecimalPoint`, `Text.ParseDecimalSignedDigits`, `Text.ParseDecimalSignedPoint` and `Text.ParseDecimalRejects` |
| Text.ParseUnsigned | app.py:41 | a number read from digits with at most one point is never negative |
| Text.ParseDecimalOfNat | app.py:41 | `float()` of the decimal text of a whole number is that number |
| Text.ParseDecimalPoint | app.py:31 | `float()` of `a.b` is `a` plus `b` scaled by its number of digits |
| Text.ParseDecimalDigits | app.py:41 | `float()` of any digit run, leading zeros included (`010`), is its decimal value |
| Text.ParseDecimalSignedDigits | app.py:41 | `float()` of `-` or `+` before a digit run is its value, negated for `-` |
| Text.ParseDecimalSignedPoint | app.py:31 | `float()` of `-` or `+` before `a.b` is `a.b`, negated for `-` (`-1.5`) |
| Text.ParseDecimalRejects | app.py:41 | every accepted text has at most one point, at least one digit, and only digits and points apart from a sign at the front; every other text is a `ValueError` |
| Calendar.LastDay | app.py:59 | a month's last day is between 28 and 31 |
| Calendar.IsLeap | app.py:59 | the Gregorian leap rule behind `monthrange`'s February; what it decides is stated by `Calendar.February` and `Calendar.FourHundredYearCycle` |
| Calendar.MonthRange | app.py:59-61 | `monthrange` gives a month length exactly for months 1..12 and raises otherwise, for any year |
| Calendar.February | app.py:59 | February has 29 days exactly in leap years; other months do not depend on the year |
| Calendar.ThirtyDaysHath | app.py:59 | April, June, September and November have 30 days; the others except February have 31 |
| Calendar.YearLength | app.py:59 | cross-check of the month-length table: the twelve month lengths add up to 365, or 366 in a leap year |
| Calendar.FourHundredYearCycle | app.py:59 | cross-check of the leap rule: month lengths repeat every 400 years |
| Expiry.NormalizeExpiry | app.py:54-62 | the expiry repair, characterised for every dash count: two dashes by `Expiry.DayMonthYear`, one dash by `Expiry.YearMonth` and `Expiry.YearMonthInvalid`, any other count by `Expiry.Unchanged` |
| Expiry.DayMonthYear | app.py:54-56 | `Y-M-D` with dash-free pieces becomes `D/M/Y` with the pieces unchanged |
| Expiry.YearMonth | app.py:57-60 | `Y-M` with digit pieces and month 1..12 becomes the month's last day `/M/Y` |
| Expiry.YearMonthInvalid | app.py:57-62 | a two-piece expiry becomes `Data Inválida` if and only if a piece is not a digit run or the month is outside 1..12 |
| Expiry.Unchanged | app.py:54-57 | text with neither one nor two dashes is kept unchanged |
| Expiry.NoDashKept | app.py:52-57 | text without a dash, such as the `Sem Validade` default, is kept unchanged |
| Expiry.FullDateExample | app.py:55-56 | `2024-05-15` becomes `15/05/2024` |
| Expiry.LeapFebruaryExample | app.py:57-60 | `2024-02` becomes `29/02/2024` |
| Expiry.CommonFebruaryExample | app.py:57-60 | `2023-02` becomes `28/02/2023` |
| Expiry.JanuaryExample | app.py:57-60 | `2025-01` becomes `31/01/2025` |
| Expiry.InvalidExamples | app.py:58-62 | `2024-13` and `2024-` become `Data Inválida` |
| NFe.ProcessNfe | app.py:9-68 | the nested loop over items and lots returns exactly what `Extract` specifies: `None`, the rows in order, or the first exception |
| NFe.ExtractSkips | app.py:11-19 | the result is `None` exactly for a malformed upload or one without an `NFe/infNFe` node |
| NFe.Extract | app.py:9-68 | `processar_nfe` on a parsed upload; stated by `NFe.ExtractSkips`, `NFe.DocRowsSucceed` and the lemmas about `NFe.DocRows`, and proved equal to the loop by `NFe.ProcessNfe` |
| NFe.TextOrDefault | app.py:21-34 | the guarded lookup `node.text if node is not None else default`; stated by `NFe.HeaderDefaults` and, for `nLote`, by `NFe.LotRowFields` |
| NFe.Show | app.py:36 | how the f-string renders a header cell, `None` as `None`; stated by `NFe.HeaderDefaults` |
| NFe.ReadTotal | app.py:30-31 | the product total: 0 when absent, `TypeError` without text, `ValueError` on non-numeric text; stated by `NFe.HeaderDefaults` |
| NFe.ReadHeader | app.py:21-36 | the header values shared by the invoice's rows; stated by `NFe.HeaderDefaults` |
| NFe.HeaderDefaults | app.py:21-36 | each absent header node independently gives `Desconhecido`, or 0 for the total; the label is `number - series`, where each part is `Desconhecido` when absent, `None` when present without text and the text otherwise; the header fails only on an unreadable total, with `TypeError` for a text-less total and `ValueError` for non-numeric text |
| NFe.ReadItemDefaults | app.py:40-42 | a missing product, quantity or unit element raises `AttributeError` and bad quantity text raises `ValueError`; with all three present and the quantity empty or readable the item is read, empty text giving `Produto Desconhecido`, 0 or `UN`, and other text being used |
| NFe.TextOr | app.py:40 | the unguarded lookup `find(...).text or default`; stated by `NFe.ReadItemDefaults` |
| NFe.ReadQuantity | app.py:41 | `float(find(...).text or 0)`; stated by `NFe.ReadItemDefaults` |
| NFe.ReadItem | app.py:40-42 | product, quantity and unit read in that order, the first exception winning; stated by `NFe.ReadItemDefaults` |
| NFe.ReadExpiry | app.py:51-62 | the repaired `dVal` text, `Sem Validade` when absent, `AttributeError` when text-less; stated by `NFe.LotRowFields` and `NFe.NoExpiryKept` |
| NFe.NoExpiryKept | app.py:51-54 | repairing the `Sem Validade` default leaves it unchanged |
| NFe.LotRowFields | app.py:47-64 | a lot's row exists exactly when its expiry is readable, a text-less `dVal` raising `AttributeError`; the row carries the lot number (`Sem Lote` when absent), the repaired expiry and the share |
| NFe.LotRow | app.py:48-64 | the row of one lot; stated by `NFe.LotRowFields` |
| NFe.LotRows | app.py:47-64 | the rows of an item's lots in order, the first exception winning; stated by `NFe.LotRowsAt`, `NFe.LotRowsSucceed`, `NFe.LotStops` and `NFe.LotRowsAppend` |
| NFe.UntrackedRow | app.py:66 | the single row of an item without lots; stated by the no-lot clause of `NFe.ItemRowsShape` |
| NFe.ItemRows | app.py:44-66 | the rows of one line item; stated by `NFe.ItemRowsShape`, `NFe.ItemRowsSucceed` and `NFe.LotSharesSum` |
| NFe.LotRowsAt | app.py:47-64 | the lot rows are one per lot, in lot order, row j built from lot j |
| NFe.LotRowsSucceed | app.py:47-64 | an item's lots produce rows exactly when every expiry is readable |
| NFe.LotStops | app.py:47-64 | a lot that raises ends the item with that exception |
| NFe.LotRowsAppend | app.py:47-64 | lot rows of `a + b` are those of `a` then those of `b`, and the first exception wins |
| NFe.ItemRowsShape | app.py:44-66 | with K ≥ 1 lots there are exactly K rows of quantity/K, each with lot j's number and expiry; without lots there is one row with the whole quantity, `Sem Lote` and no expiry; every row has the item's product and unit |
| NFe.ItemRowsSucceed | app.py:40-66 | an item produces rows exactly when its fields can be read and every lot's expiry is readable |
| NFe.LotSharesSum | app.py:44-47 | the rows of one item carry exactly the item's total quantity |
| NFe.SharesSumTo | app.py:46 | K equal shares of q add up to q |
| NFe.DocRows | app.py:38-66 | the rows of all line items in order, the first exception winning; stated by `NFe.DocRowsCount`, `NFe.DocRowsCarryHeader`, `NFe.DocRowsSucceed`, `NFe.DocRowsAppend` and `NFe.ExtractStops` |
| NFe.DocRowsCount | app.py:38-66 | a document yields the sum over its items of max(1, K) rows |
| NFe.DocRowsCarryHeader | app.py:36-66 | every row carries the processing date and the invoice's label, supplier, total and nature |
| NFe.DocRowsSucceed | app.py:39-66 | a document produces rows exactly when every one of its items does |
| NFe.DocRowsAppend | app.py:38-68 | rows of items `a + b` are those of `a` then those of `b`, and the first exception wins |
| NFe.ExtractStops | app.py:39-68 | an item that raises ends the document with that exception, whatever follows |
| Batch.ProcessBatch | app.py:70-75 | the loop over uploads returns exactly `Aggregate`: rows in upload order, or the first exception |
| Batch.Contribution | app.py:74-75 | what one upload adds: nothing for a skipped upload or an empty list; stated by `Batch.AggregateOne` and `Batch.SkippedAddsNothing` |
| Batch.Collect | app.py:72-75 | the table from a per-upload flattening; stated by `Batch.CollectStops`, `Batch.CollectAppend` and `Batch.CollectSucceeds` |
| Batch.Aggregate | app.py:70-75 | `processar_arquivos_xml` up to the table; stated by `Batch.AggregateAppend`, `Batch.AggregateOne`, `Batch.SkippedAddsNothing`, `Batch.AggregateSucceeds` and `Batch.AggregateEmpty`, and proved equal to the loop by `Batch.ProcessBatch` |
| Batch.CollectStops | app.py:72-75 | an upload that raises ends the batch with that exception |
| Batch.CollectAppend | app.py:72-75 | the table of uploads `a + b` is the table of `a` followed by that of `b`, and the first exception wins |
| Batch.CollectSucceeds | app.py:72-75 | the batch produces a table exactly when no upload raises |
| Batch.AggregateAppend | app.py:70-75 | processing `a + b` concatenates the tables of `a` and `b` in order |
| Batch.AggregateOne | app.py:72-75 | one upload alone gives its rows, nothing when it is skipped, or its exception |
| Batch.SkippedAddsNothing | app.py:72-75 | a skipped upload adds no rows and leaves the others unchanged wherever it stands |
| Batch.AggregateSucceeds | app.py:70-75 | the batch succeeds exactly when every upload's extraction does |
| Batch.AggregateEmpty | app.py:70-75 | no uploads give an empty table |
| Sample.TwoLots | app.py:44-64 | an item with two readable lots yields exactly their two rows, in order, each with half the quantity |
| Sample.TwoLotsExample | app.py:40-64 | 10 `CX` of `Dipirona` over lots `L1` (`2025-01-15`) and `L2` (`2025-01`) yield two rows of 5, with expiries `15/01/2025` and `31/01/2025` |

## Left out

- XML parsing and namespace lookup (app.py:10-17, 21-51): a parsed upload is the `Document` datatype, with one `Option<Element>` per `find` and one sequence per `findall`.
- The pandas DataFrame and its column names (app.py:77-79): the table is a sequence of `Row` values whose fields follow the same column order.
- Currency formatting of the total column (app.py:81): it is display-only text formatting of floats and is not modelled. The rows keep the numeric total.
- The Streamlit page and the Excel export (app.py:85-108): these are user-interface and file I/O.
- The processing date: `datetime.now()` is called for every row (app.py:64, 66). The model takes one date string as a parameter for the whole batch, so it does not capture a clock that ticks past midnight during a batch.
- Floats: `float` values are modelled as exact reals, without IEEE-754 rounding.
- NFe.LotSharesSum: holds exactly over reals. With IEEE-754 floats the shares add up to the quantity only up to rounding.
- Text.ParseInt: accepts only non-empty ASCII digit runs. It does not accept the surrounding whitespace, sign, underscores or non-ASCII digits that Python's `int()` also accepts. A `-` cannot occur in a piece anyway. It also has no length limit, as in Python 3.8.0–3.8.13, 3.9.0–3.9.13 and 3.10.0–3.10.6. Later releases (3.8.14, 3.9.14, 3.10.7, 3.11 and on) limit integer-string conversion to 4300 digits: `int()` raises `ValueError` on a longer digit run, app.py:61 catches it, and such a year or month gives `Data Inválida` where `Expiry.NormalizeExpiry` here gives a date.
- Text.ParseDecimal: accepts an optional sign, ASCII digits and at most one point. It does not accept the exponents, whitespace, underscores, non-ASCII decimal digits, `inf`, `infinity` or `nan` that Python's `float()` also accepts. Such text is treated as a `ValueError`.
- Calendar.MonthRange: follows Python 3.8 and later, where `monthrange` accepts any year. Only a month outside 1..12 raises.
- NFe.ReadExpiry: for an absent `dVal` it returns `Sem Validade` directly. The source also passes that default through the repair; `NFe.NoExpiryKept` proves the repair leaves it unchanged.
