# Victoria road-traffic ETL: a verified model of the cleaning pipeline

This project models, in Dafny, the core of `src/etl_pipeline.py`:

- **Site selection** (line 16): the `site_id`s of the metadata rows whose suburb is one of
  the configured suburbs, in table order (`Sites`).
- **The per-file record cleaner `process_csv`** (lines 20-65), as a chain of pure functions
  (`Cleaning`). The chain is:
  1. the site filter;
  2. the "some reading strictly positive" filter;
  3. `fillna(0)` on the volume cells;
  4. the working-period correction: the count loses one per negative reading;
  5. zeroing of negative readings;
  6. the hourly sums over four-window slices, with Python's slice clamping;
  7. the melt into 24 blocks of rows, one per hour;
  8. the final five-column projection.
- **The archive walk of one yearly archive** (lines 74-92), as two nested `while` loops
  proved against a specification function (`Walker`). The walk:
  - visits the sub-archives in name order, and within each the members whose lower-cased
    name ends in `.csv`, in name order;
  - cleans every such file;
  - drops the first cleaned row of every file from sub-archive index `i > 0`;
  - concatenates the pieces in order;
  - fails when there is nothing to concatenate (`pd.concat([])` raises).

  Python's `sorted` over names and `str.lower` / `str.endswith` are in `Names`.
- **The schema gate** (lines 98-150):
  - the rule table `SCHEMA` (`OutputSchema.Schema`);
  - `validate_schema`, a loop over the schema with `continue` on a missing column, proved
    against a specification function (`Validation`);
  - the checks run in the source's order: missing values, integer type, datetime type,
    minimum, maximum.

  `OutputSchema` connects cleaning and validation. It computes the exact error list the
  validator reports on any cleaned file. That list is empty, or the single error
  `working_period_count: contains values < 0`. The error appears exactly when some kept row
  had more negative readings than working periods.

Two points about the walk's dropped rows:

- **Which rows are dropped.** The drop at line 88 is keyed on the sub-archive index `i`,
  not on the file's position in the traversal:
  - every file of the first sub-archive is kept whole;
  - every file of a later sub-archive loses its first row.

  `Walker.Piece` models this.
- **What the dropped row is.** `pd.read_csv` has already consumed the header, so the
  dropped row is data: hour 1 of the file's first kept row (`Walker.DroppedRow`).

Modules: `Wrappers` (Option, Result), `Seqs` (sum, filter, concatenation), `Names`,
`Sites`, `Cleaning`, `Walker`, `Validation`, `OutputSchema`.

## Model

| member | source | states |
|---|---|---|
| Sites.SelectSites | src/etl_pipeline.py:16 | an id is selected iff some metadata row with that id has a suburb in the list; never more ids than rows |
| Sites.SelectSitesConcat | src/etl_pipeline.py:16 | selection keeps the metadata table's order (selecting from stacked tables stacks the selections) |
| Sites.SelectedSuburbsExact | src/etl_pipeline.py:13-16 | an example on the configured suburb list: a "Richmond" site is selected, a "richmond" or "Carlton" site is not (SelectSites states the exact match for every input) |
| Cleaning.KeptRows | src/etl_pipeline.py:28-41 | the two row masks in order; its contract is KeptRowsMembers (which rows survive) and KeptRowsConcat (order kept) |
| Cleaning.KeptRowsMembers | src/etl_pipeline.py:28-41 | a raw row survives the two filters iff its site is selected and some present reading is strictly positive (both directions) |
| Cleaning.KeptRowsConcat | src/etl_pipeline.py:28-41 | the filters keep row order: kept rows of stacked tables are the stacked kept rows |
| Cleaning.FillMissing | src/etl_pipeline.py:44 | every cell keeps its value, a missing cell becomes 0, length unchanged |
| Cleaning.ZeroNegatives | src/etl_pipeline.py:46-48 | every negative cell becomes 0, every other cell is unchanged |
| Cleaning.CleanVolumes | src/etl_pipeline.py:44-48 | corrected cells are non-negative: a strictly positive reading is kept, missing/zero/negative become 0 |
| Cleaning.NegativesIgnoreMissing | src/etl_pipeline.py:44-47 | the count subtracted from `working_period_count` is exactly the number of present negative readings |
| Cleaning.CleanVolumesSum | src/etl_pipeline.py:44-48 | the corrected cells add up to the sum of the strictly positive raw readings |
| Cleaning.HourlyVolumes | src/etl_pipeline.py:55 | the comprehension over `range(24)` yields exactly 24 hourly columns; their values are stated by HourIsFourWindows, HourPrefixSum and HourlyConservation |
| Cleaning.HourIsFourWindows | src/etl_pipeline.py:55 | with 96 windows, `hour_{h+1}` is the sum of corrected windows 4h..4h+3 |
| Cleaning.HourPrefixSum | src/etl_pipeline.py:55 | the first k hourly sums together hold the first 4k windows (slice clamped to the row) |
| Cleaning.HourlyConservation | src/etl_pipeline.py:44-55 | the 24 hourly volumes of a row add up to its positive raw readings over the first (at most) 96 windows |
| Cleaning.Aggregate | src/etl_pipeline.py:44-56 | one kept row cleaned and summed by hour; its contract is AggregateBounds and AggregateMeaning |
| Cleaning.AggregateBounds | src/etl_pipeline.py:44-55 | cleaning never raises the working-period count and leaves every hourly volume non-negative |
| Cleaning.AggregateMeaning | src/etl_pipeline.py:44-56 | hour h+1 of an aggregated row is the positive readings of its windows; its count loses the present negative readings |
| Cleaning.Melt | src/etl_pipeline.py:59-63 | the melt has one row per wide row and hour (24·n rows); MeltAt states where each row lands |
| Cleaning.MeltAt | src/etl_pipeline.py:59-63 | the melt has 24·n rows and row h·n+r is hour h+1 of wide row r (hour-major blocks, row order within) |
| Cleaning.LayoutAt | src/etl_pipeline.py:44-65 | after aggregation, melt and projection, row k = h·n+r is the expected hour-h+1 row of kept row r |
| Cleaning.Project | src/etl_pipeline.py:65 | the final selection keeps every row; LayoutAt and OutputRowAt state each projected row against the raw row it comes from: its day, site, detector, volume and count, without the hour label |
| Cleaning.ProcessCsv | src/etl_pipeline.py:20-65 | `process_csv` emits exactly 24 rows per kept raw row; the rows themselves are stated by OutputRowAt, OutputRowSource, OutputRowsSound, RowContribution and OutputConservation |
| Cleaning.OutputRowAt | src/etl_pipeline.py:20-65 | output row k = h·n+r holds kept row r's datetime, site, detector, hour-h+1 positive volume and corrected count |
| Cleaning.OutputRowSource | src/etl_pipeline.py:20-65 | every output row is the expected row of some hour of some kept row (the converse of OutputRowAt) |
| Cleaning.OutputRowsSound | src/etl_pipeline.py:28-65 | every output row has a selected site and a non-negative volume, and matches a raw row with a positive reading whose identifying fields it keeps and whose count less its negatives it carries |
| Cleaning.RowContribution | src/etl_pipeline.py:28-63 | a single raw row yields 24 rows iff its site is selected and some reading is strictly positive, else none |
| Cleaning.OutputConservation | src/etl_pipeline.py:44-63 | the 24 volumes emitted for kept row r add up to its positive raw readings over at most 96 windows |
| Names.Lower | src/etl_pipeline.py:83 | the ASCII lowering of a name: same length, each ASCII capital mapped to its lower-case letter and every other character kept |
| Names.IsCsvName | src/etl_pipeline.py:83 | `csv_name.lower().endswith(".csv")`; its contract is CsvNameCaseInsensitive |
| Names.CsvNameCaseInsensitive | src/etl_pipeline.py:83 | a member is read iff its name ends in `.csv` in any mix of upper and lower case |
| Names.LexLeTotal | src/etl_pipeline.py:77 | Python's string order is total |
| Names.LexLeTransitive | src/etl_pipeline.py:77 | Python's string order is transitive |
| Names.InsertSorted | src/etl_pipeline.py:77 | inserting an entry into a name-sorted list keeps it sorted |
| Names.SortByNameCorrect | src/etl_pipeline.py:77 | `sorted(namelist())` returns the same entries (as a multiset), ordered by name |
| Names.SortByName | src/etl_pipeline.py:77-82 | `sorted` over entry names keeps the number of entries; SortByNameCorrect states it is an ordered permutation |
| Names.SortByNameMembers | src/etl_pipeline.py:82 | sorting neither adds nor loses a member |
| Walker.DropFirst | src/etl_pipeline.py:88 | `iloc[1:]` of a non-empty table is everything after its first row, in order; of an empty table, empty |
| Walker.Piece | src/etl_pipeline.py:86-88 | what one cleaned file contributes; its contract is PieceAt and DroppedRow |
| Walker.CleanFile | src/etl_pipeline.py:86-88 | one CSV member is cleaned, and its first row dropped when it is not from the first sub-archive |
| Walker.CleanSubArchive | src/etl_pipeline.py:82-88 | the inner loop appends, in name order, one piece per CSV member: cleaned, and without its first row when i > 0 |
| Walker.Walk | src/etl_pipeline.py:74-92 | the loop over sorted sub-archives yields the concatenation of all pieces in walk order, or the error of an empty concatenation |
| Walker.CsvVisitsMembers | src/etl_pipeline.py:82-83 | the files cleaned from a sub-archive are exactly its CSV members |
| Walker.CsvVisitsSorted | src/etl_pipeline.py:82 | within a sorted sub-archive the CSV files are cleaned in name order |
| Walker.VisitsUpToOrdered | src/etl_pipeline.py:77-82 | files are cleaned sub-archive by sub-archive (indexes never decrease), by name within one |
| Walker.VisitsUpToSound | src/etl_pipeline.py:77-83 | only CSV members of the visited sub-archives are cleaned |
| Walker.VisitsUpToComplete | src/etl_pipeline.py:77-83 | every CSV member of every visited sub-archive is cleaned |
| Walker.CsvVisitsCount | src/etl_pipeline.py:82-86 | a sub-archive's visits hold each CSV member exactly as often as the sub-archive does |
| Walker.CsvVisitsElsewhere | src/etl_pipeline.py:82-86 | a sub-archive yields no visit tagged with another sub-archive's index |
| Walker.VisitsUpToCount | src/etl_pipeline.py:77-86 | each CSV member of each visited sub-archive is cleaned exactly as often as it occurs there |
| Walker.WalkOrderSpec | src/etl_pipeline.py:77-86 | the walk cleans exactly the CSV members, each as often as it occurs in its sub-archive (once for distinct names), sub-archives in name order, files in name order within each |
| Walker.WalkResult | src/etl_pipeline.py:74-92 | the yearly table or the empty-concatenation error; its contract is Walk, WalkFailsWithoutCsv, WalkRowCount and WalkRowsSound |
| Walker.WalkFailsWithoutCsv | src/etl_pipeline.py:92 | the year fails iff no sub-archive has a member with a CSV name |
| Walker.PiecesRowCount | src/etl_pipeline.py:88-92 | the pieces' rows plus one per dropped first row equal the rows the cleaner produced |
| Walker.WalkRowCount | src/etl_pipeline.py:88-92 | a year's table has every cleaned row less one per non-empty file from a later sub-archive; nothing is deduplicated |
| Walker.PieceAt | src/etl_pipeline.py:88 | piece k is file k cleaned: whole from sub-archive 0, otherwise without its first row |
| Walker.DroppedRow | src/etl_pipeline.py:88 | the dropped row is data: hour 1 of the file's first kept raw row |
| Walker.WalkRowsSound | src/etl_pipeline.py:86-92 | every row of a year's table has a selected site and a non-negative volume |
| Validation.CheckColumn | src/etl_pipeline.py:133-148 | the five checks on a present column append exactly that column's violations |
| Validation.ValidateSchema | src/etl_pipeline.py:124-150 | the loop returns the violations of every schema field, field after field |
| Validation.FieldErrors | src/etl_pipeline.py:129-148 | one field's violations; its contract is FieldErrorsEmpty, FieldErrorsName, MissingColumnOnce and FieldBelowMinOnce |
| Validation.SchemaErrors | src/etl_pipeline.py:127-150 | the violations of every field in schema order; its contract is ValidateSchema, NoErrorsIffAllPass, ErrorsOfField and ErrorsInSchemaOrder |
| Validation.FieldErrorsEmpty | src/etl_pipeline.py:129-148 | a field reports nothing iff its column is present and breaks none of its rules |
| Validation.NoErrorsIffAllPass | src/etl_pipeline.py:124-150 | the error list is empty iff every schema field passes (both directions) |
| Validation.FieldErrorsName | src/etl_pipeline.py:129-148 | every violation of a field names that field |
| Validation.SchemaErrorsFields | src/etl_pipeline.py:127-150 | every violation names a field of the schema |
| Validation.ErrorsOfField | src/etl_pipeline.py:127-150 | with distinct field names, the violations naming field k are exactly field k's own violations |
| Validation.MissingColumnOnce | src/etl_pipeline.py:129-131 | a missing column yields exactly one violation for its field, "Missing column", and no check on it |
| Validation.FieldBelowMinOnce | src/etl_pipeline.py:144-145 | a present column with a value below its minimum reports exactly one "< min" violation |
| Validation.BelowMinOnce | src/etl_pipeline.py:144-145 | in the whole list, a field with a value below its minimum has exactly one "< min" violation |
| Validation.ErrorsInSchemaOrder | src/etl_pipeline.py:127-150 | violations come in schema order: no violation precedes one of an earlier field |
| OutputSchema.SchemaFieldsDistinct | src/etl_pipeline.py:98-122 | the five `SCHEMA` fields (`Schema`, in declaration order) have distinct names |
| OutputSchema.SchemaFieldOnce | src/etl_pipeline.py:98-150 | on `SCHEMA` itself, a missing column is reported once and a value below a field's minimum gives exactly one "< min" violation |
| OutputSchema.AsFrame | src/etl_pipeline.py:65 | the cleaned table has exactly the five output columns |
| OutputSchema.PresentColumnErrors | src/etl_pipeline.py:135-148 | on a complete column of the right type with no maximum, only the minimum check can report |
| OutputSchema.IdentifyingFieldsPass | src/etl_pipeline.py:98-110 | datetime, site_id and detector_id of a cleaned table always pass |
| OutputSchema.MinimumFieldErrors | src/etl_pipeline.py:111-121 | volume and working_period_count report "< 0" exactly when some value is negative |
| OutputSchema.LastTwoErrors | src/etl_pipeline.py:127-150 | when the first three fields pass, the list is the last two fields' violations |
| OutputSchema.TableErrors | src/etl_pipeline.py:98-150 | on any table of output rows the list is at most a volume "< 0" followed by a count "< 0", each iff some value is negative |
| OutputSchema.OvercorrectedShows | src/etl_pipeline.py:44-47 | a kept row with more negative readings than working periods puts a negative count into the output |
| OutputSchema.NegativeCountOvercorrected | src/etl_pipeline.py:44-47 | a negative count in the output comes from such an over-corrected kept row |
| OutputSchema.CleanedFileErrors | src/etl_pipeline.py:124-150 | on a cleaned file the validator reports exactly one "working_period_count < 0" if some kept row was over-corrected, and nothing otherwise |
| OutputSchema.CleanedFileValid | src/etl_pipeline.py:152-155 | a cleaned file passes the gate iff every kept row had at least as many working periods as negative readings |

## Left out

- File and archive I/O is not modelled: reading the site table (line 10), `pd.read_csv` of
  a source file (lines 23-25), opening the nested zip archives (lines 76-84). A file is
  given as its parsed rows, and an archive as its list of named entries.
- The loop over yearly archives (line 71) and the year taken from the file name (line 73)
  are not modelled. `Walker.Walk` is the walk of one yearly archive.
- Writing the yearly table (line 93) is not modelled. It goes through `to_csv`, to a path
  whose name ends in `parquet` with no dot, while the message at line 94 says `.parquet`.
- The progress messages (lines 89 and 94) and the text of the error messages are not
  modelled. Violations are a datatype, one constructor per message shape.
- The `raise ValueError` (lines 154-155) is not modelled as an exception.
  `OutputSchema.CleanedFileValid` states when it happens.
- At line 152 the gate is applied to `df`, the last file cleaned by the walk. It is not
  applied to the yearly table. The model states the gate's outcome for any cleaned file.
- Cleaning.ProcessCsv: the `int16`/`int8` read types (lines 23-25) and the `int16` cast of
  the volume cells (line 52) are not modelled. Integers are unbounded, so readings outside
  the 16-bit range do not wrap.
- Cleaning.ProcessCsv: the site filter reads the module-level `selected_sites` (line 28),
  not its second parameter. The model passes the selected sites explicitly.
- Cleaning.RawRow: `pd.to_datetime` parsing (line 51) is not modelled. Instants are integers.
- Cleaning.RawRow: `fillna(0)` on the identifying columns (line 44) is not modelled. Only
  volume cells can be missing.
- Validation.Column: dtype introspection (`is_integer_dtype`, `is_datetime64_any_dtype`)
  is a tag carried by each column. `SCHEMA`'s `dtype` strings other than `int` and
  `datetime` trigger no check, which `Kind` reflects.
- Validation.Rule: the `columns` lambda of the `volume` rule (line 112) is not modelled.
  The validator never reads it.
- Names.Lower: only ASCII letters are lowered, one character for one. Python's `str.lower`
  also lowers other letters and can lengthen a name ("İ" becomes two characters, the
  second a combining mark). No other character lowers to one of `.csv`, and a lengthened
  form ends in a combining mark, so the CSV test is unaffected.
- Walker.SubArchive: a zip archive holding two members with the same name is not
  modelled. Opening by name would read only one of them.
