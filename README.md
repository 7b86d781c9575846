# Price upload service: a Dafny model of its ingestion core

The service keeps a PostgreSQL table `prices` (id, name, category, price, create_date) and
accepts uploads of a ZIP or TAR archive that holds a CSV file of prices. `POST /api/v0/prices`
takes the archive type from the `type` query parameter (default `zip`) and finds the first
`.csv` file in the archive. It splits that file into raw records and validates each one:
every field non-empty, an integer id, a non-negative price and a `YYYY-MM-DD` date. It counts
records whose id repeats inside the file or already exists in the table as duplicates. It
inserts the remaining records one by one, skipping any insert the database rejects, and
answers with the file's record count, the duplicate count and statistics of the whole table.

The model follows the Go code module by module:

- `Results` and `Models`: Option and Result, and the records of `internal/models/price.go`.
- `GoText`: the standard-library text functions the pipeline calls:
  - `strings.TrimSpace`, `ToLower` and `HasSuffix`;
  - `strconv.Atoi` and `Itoa`;
  - `strconv.ParseFloat` and `FormatFloat(_, 'f', 2, 64)`;
  - `time.Parse` and `Format` with layout `2006-01-02`.

  Each parser is partial. Each formatter is proved to be read back by its parser within stated
  limits: Itoa for ids in the 64-bit range, FormatFloat for non-negative whole numbers of cents
  below the float64 overflow bound, and Format for calendar dates with years 0 to 9999.
- `Csv`: `CSVService.Parse` is a method with a loop. It is proved equal to the function
  `ParseReads` over the record stream of a default `csv.Reader`. `Generate` is a method proved
  equal to `CsvRows`. `ReadBack` is what a `csv.Reader` returns for the rows a `csv.Writer`
  wrote: every field unchanged, except that a "\r\n" inside a field comes back as "\n".
- `Repository`: `PriceRepository` is a class whose field `rows` is the table in insertion
  order. A valid table has no two rows with the same id (the primary key). `BulkInsert`
  updates the table in place. `CheckExistingIDs` and `GetStatistics` read it.
- `Validator`: `ValidatorService.Validate` is a method. It runs the first loop (`ScanRecords`),
  the database lookup and the second loop (`DropStored`), and is proved equal to
  `ValidateSpec`. The properties of validation are lemmas about that function.
- `Archive`: `Extract`, `ExtractZip` and `ExtractTar`. `ExtractTar` drives a `TarReader`
  object whose `Next` advances through the TAR headers. Each method is proved equal to a
  selection function (`ExtractResult`, `ZipResult`, `TarResult`).
- `Handlers`: `PricesHandler.HandlePost` mutates the repository. It is proved equal to the
  function `Post`, which gives the response and the table after the request.

## Model

| member | source | states |
|---|---|---|
| GoText.TrimSpace | internal/services/validator.go:45-49 | The trimmed text is a slice of the input with only white space cut from either end; it has no white space at either end, and it is empty exactly when the input is all white space (the completeness test). |
| GoText.TrimmedTwice | internal/services/validator.go:45 | Cutting leading white space and then trailing white space leaves a slice of the input with only white space outside it. |
| GoText.TrimSpaceIdempotent | internal/services/validator.go:89-90 | Trimming a stored name or category a second time changes nothing. |
| GoText.Atoi | internal/services/validator.go:55-59 | An accepted id lies in the 64-bit int range and its text held no white space. |
| GoText.AtoiItoa | internal/services/validator.go:55 | Atoi reads back the text Itoa writes, for every 64-bit int. |
| GoText.Itoa | internal/services/csv.go:95 | The id text is non-empty and holds only a sign and digits. |
| GoText.ParseDecimal | internal/services/validator.go:62-66 | A parsed price is negative only if its text starts with '-'; empty text is rejected; every accepted value lies strictly inside the float64 overflow bound, so text beyond it is ParseFloat's range error and the row is skipped. |
| GoText.ParseDecimalOverflow | internal/services/validator.go:62-63 | Digits whose value reaches the float64 overflow bound are rejected. |
| GoText.ParseFormatPrice | internal/services/csv.go:98 | The two-decimal text of a whole number of cents parses back to exactly that amount. |
| GoText.FormatPrice | internal/services/csv.go:98 | The price text ends in '.' and two digits, starts with '-' exactly for a negative price, and holds only a sign, digits and the point. |
| GoText.ParseDate | internal/services/validator.go:69-73 | An accepted date is a real calendar date (month 1..12, day within the month, leap years included) with a four-digit year, from text shaped `dddd-dd-dd`. |
| GoText.ParseFormatDate | internal/services/csv.go:99 | Every real date of a four-digit year is read back from its `YYYY-MM-DD` text. |
| GoText.FormatDate | internal/services/csv.go:99 | The date text holds only signs, digits and dashes, and for a date whose fields fit their widths it is ten characters with dashes at positions 4 and 7. |
| GoText.FormatParseDate | internal/services/validator.go:69 | The date parser accepts only the canonical text of the date it returns. |
| GoText.ItoaReadBack | internal/services/csv.go:95 | The id column written by Generate has no surrounding space and passes the validator's id check unchanged. |
| GoText.FormatPriceReadBack | internal/services/csv.go:98 | The price column written for a whole number of cents below the float64 overflow bound has no surrounding space and parses back exactly. |
| GoText.FormatDateReadBack | internal/services/csv.go:99 | The date column written by Generate has no surrounding space and parses back to the same date. |
| Csv.DefaultReader | internal/services/csv.go:34 | A default csv.Reader fixes the field count from the first record; a later record is returned only if it has that many fields, otherwise it is a read error. |
| Csv.FirstFault | internal/services/csv.go:51-58 | The index where the data loop stops on a read error: every earlier row is a record. |
| Csv.DataRows | internal/services/csv.go:51-78 | The data loop returns at most one record per row and succeeds only when every row was read; its only error names a line from 2 on whose row was unreadable. |
| Csv.DataRowsFailure | internal/services/csv.go:56-58 | The data rows fail exactly when some row is unreadable, and the error names the line of the first such row (its index plus 2). |
| Csv.DataRowsFromRows | internal/services/csv.go:60-77 | Every raw record comes from a readable row with at least 5 fields, copies its first five fields and carries that row's line number. |
| Csv.DataRowsInRowOrder | internal/services/csv.go:60-77 | The raw records keep the file's row order: line numbers strictly increase. |
| Csv.DataRowsKeepsLongRows | internal/services/csv.go:62-77 | Every readable row with at least 5 fields yields a raw record; only short rows are skipped. |
| Csv.DataRowsFailureSticks | internal/services/csv.go:56-58 | Once a prefix of the rows fails, the rows after it do not change the result. |
| Csv.ParseReads | internal/services/csv.go:33-82 | An unreadable or missing header and a header with fewer than 5 columns are the two header errors; on success the count equals the number of records returned. |
| Csv.Parse | internal/services/csv.go:33-82 | The loop over csv.Reader.Read computes `ParseReads` of the default reader's stream, with the count equal to the number of records. |
| Csv.ParseWithDefaultReader | internal/services/csv.go:33-82 | Under the default reader, Parse succeeds exactly when the header has at least 5 fields and every record has the header's field count. Every data record is then returned, in order, with line numbers from 2. |
| Csv.CsvRows | internal/services/csv.go:84-104 | The generated rows are the header followed by one formatted row per price, in order. |
| Csv.CsvRowsAppend | internal/services/csv.go:93-104 | Generating one more price appends exactly its row. |
| Csv.Generate | internal/services/csv.go:84-112 | The writer loop produces `CsvRows` of the prices: header first, then one row per price. |
| Csv.ReadFieldVerbatim | internal/services/csv.go:86-101 | A field without a carriage return is read back exactly as the writer wrote it. |
| Csv.CrLfReadAsLf | internal/services/csv.go:86-101 | A field holding "\r\n" is not read back as written: "a\r\nb" comes back as "a\nb". |
| Csv.ReadRowFormatted | internal/services/csv.go:93-101 | The row written for a price whose name and category have no carriage return is read back exactly as written. |
| Csv.ParseGenerated | internal/services/csv.go:33-112 | Parse accepts what Generate writes and returns one raw record per price, carrying that price's formatted fields as the reader returns them and its line number. |
| Repository.Lookup | internal/repository/price_repository.go:28-42 | Finding a row by id: it returns a row with that id, and nothing exactly when the id is absent. |
| Repository.LookupAppend | internal/repository/price_repository.go:28-42 | Looking up in a concatenation finds the first part's row before the second's. |
| Repository.ExistingIdsAnswer | internal/repository/price_repository.go:23-49 | An empty id list answers an empty set without a query. Otherwise the query fails exactly when the database fails or an id lies outside INTEGER's range (the server cannot convert the `ANY($1)` parameter), and on success it answers exactly the asked ids present in the table. |
| Repository.PriceRepository.CheckExistingIDs | internal/repository/price_repository.go:23-49 | The method's answer is the existing-ids answer for the current table. |
| Repository.InsertAll | internal/repository/price_repository.go:53-70 | Inserting a batch row by row adds at most one row per price (that the old rows stay in front is `Repository.InsertAllAppends`). |
| Repository.InsertAllValid | internal/repository/price_repository.go:53-70 | Inserting row by row and skipping rejected rows keeps the table keyed by id and within the column constraints. |
| Repository.InsertAllAppends | internal/repository/price_repository.go:53-70 | Bulk insertion keeps every existing row in place, in front, and only appends rows taken from the batch. |
| Repository.InsertAllLookup | internal/repository/price_repository.go:60-67 | After the batch, an id that was already stored still finds its old row. Any other id finds the first batch row with that id that fits the columns (INTEGER id, text lengths, price bound, no U+0000 in the texts), so later duplicates in a batch are rejected. |
| Repository.InsertAllNew | internal/repository/price_repository.go:53-70 | A batch of distinct, not yet stored ids whose rows fit the columns (no U+0000 in the texts included) is appended whole and in order. |
| Repository.InsertAllSkipsNul | internal/repository/price_repository.go:60-67 | No row the batch adds holds U+0000 in its name or category: the server refuses each such INSERT and the loop skips it. |
| Repository.PriceRepository.BulkInsert | internal/repository/price_repository.go:53-70 | The table becomes the row-by-row insertion of the batch, stays valid, and no error is ever returned. |
| Repository.SumPricesAppend | internal/repository/price_repository.go:78 | The price sum is additive over concatenated tables. |
| Repository.SumPricesNonNegative | internal/repository/price_repository.go:78 | The sum of non-negative prices is non-negative. |
| Repository.CategoriesAtMostRows | internal/repository/price_repository.go:77 | There are no more distinct categories than rows. |
| Repository.StatisticsOf | internal/repository/price_repository.go:73-89 | The item count is the row count, and the category count is between 1 and the row count (0 for an empty table). The total is 0 for an empty table (COALESCE) and non-negative when all prices are. |
| Repository.StatisticsAfterInsert | internal/repository/price_repository.go:73-89 | After a bulk insert the statistics cover the old rows plus the appended rows: items, sum and categories combine. |
| Repository.PriceRepository.GetStatistics | internal/repository/price_repository.go:73-89 | The method fails exactly when the query fails; otherwise it returns the statistics of the whole table. |
| Validator.TypedRecordShape | internal/services/validator.go:43-95 | The reference typing `TypeRecord` rejects an incomplete record, and an accepted record has a 64-bit id, a non-negative price, a real date, and a non-empty trimmed name and category. |
| Validator.Classify | internal/services/validator.go:43-74 | The format checks are applied to each raw record on its own, in order. |
| Validator.ClassifyAppend | internal/services/validator.go:43 | Checking two runs of records is checking their concatenation. |
| Validator.Step | internal/services/validator.go:75-95 | One well-formed record is kept at the end or counted once as a duplicate, and its id becomes seen; the records kept before stay in front. |
| Validator.CheckRecord | internal/services/validator.go:44-93 | The step-by-step checks (completeness, Atoi, ParseFloat and sign, time.Parse), returning early at the first failure, type a raw record as `TypeRecord` does. |
| Validator.RunAppend | internal/services/validator.go:43-96 | The first loop over two runs of records is the loop over the first run continued over the second. |
| Validator.RunKeyed | internal/services/validator.go:75-95 | The candidates kept by the first loop have distinct ids, and the seen-id set is exactly their ids, which are the ids of all well-formed records. |
| Validator.RunCounts | internal/services/validator.go:43-96 | From any state, the first loop keeps the records already kept in front, keeps seen ids seen, and adds one kept record or one duplicate per well-formed record. |
| Validator.RunFirstWins | internal/services/validator.go:75-95 | For each id, the kept candidate is the first well-formed record with that id. |
| Validator.Phase1 | internal/services/validator.go:43-96 | Phase 1 keeps records with distinct ids, and the seen ids are exactly the kept ids, which are the ids of all well-formed records. |
| Validator.Phase1Keeps | internal/services/validator.go:43-96 | For each id, phase 1 keeps the first well-formed record of the file carrying it. |
| Validator.ScanRecords | internal/services/validator.go:37-96 | The first loop computes phase 1 (seen ids, kept records, in-file duplicates), and its id list is the kept records' ids in order. |
| Validator.IdsInOrderIndex | internal/services/validator.go:84 | The id list sent to the database has one entry per kept record: the i-th id is the i-th kept record's id. |
| Validator.IdsInOrderMembers | internal/services/validator.go:83-102 | The id list sent to the database holds exactly the kept records' ids. |
| Validator.Fresh | internal/services/validator.go:104-113 | The second loop returns no more records than it is given, each a kept record whose id is not in the answer set. |
| Validator.StoreDuplicates | internal/services/validator.go:104-113 | The second loop counts at most one duplicate per kept record, and none when no kept id is in the answer set. |
| Validator.IdsInOrderInt32 | internal/services/validator.go:99 | Every id sent to the database fits INTEGER exactly when every kept record's id does. |
| Validator.FreshMembers | internal/services/validator.go:105-113 | The second loop keeps exactly the candidates whose id is not stored. |
| Validator.FreshNotStored | internal/services/validator.go:99-113 | A kept record whose id the lookup did not report is not in the table. |
| Validator.StoreDuplicatesCount | internal/services/validator.go:105-113 | Every candidate is either kept or counted as a stored duplicate. |
| Validator.FreshKeyed | internal/services/validator.go:105-113 | Filtering keeps ids distinct. |
| Validator.FreshAppend | internal/services/validator.go:105-113 | The filter and the stored-duplicate count distribute over concatenated candidates. |
| Validator.FreshDisjoint | internal/services/validator.go:105-113 | If no candidate is stored, all are kept and no duplicate is counted. |
| Validator.FreshAllStored | internal/services/validator.go:105-113 | If every candidate is stored, none is kept and each one is counted. |
| Validator.FreshAgree | internal/services/validator.go:105-113 | The second loop depends only on which candidate ids are stored, not on the rest of the answer set. |
| Validator.Phase2 | internal/services/validator.go:98-115 | When the lookup succeeds, phase 2 passes the total through, accounts for every kept record as valid or duplicate, and returns only kept records whose id is not in the table. |
| Validator.Phase2Found | internal/services/validator.go:104-115 | Once the lookup answers, phase 2 is the second loop over that answer. |
| Validator.ValidateSpec | internal/services/validator.go:30-116 | A successful validation passes the total through, and valid records plus duplicates equal the number of well-formed records, never more than the raw records. |
| Validator.DropStored | internal/services/validator.go:105-113 | The second loop returns the unstored candidates in order and the number of stored ones. |
| Validator.Validate | internal/services/validator.go:30-116 | The method's result is the reference validation of the records against the current table. |
| Validator.ValidateFails | internal/services/validator.go:99-102 | Validation fails exactly when some record was kept and the lookup fails, either because the database fails or because a kept id lies outside INTEGER's range. |
| Validator.WideIdFails | internal/services/validator.go:55-102 | One well-formed record whose id Atoi accepts but INTEGER cannot hold makes the whole validation fail. |
| Validator.ValidRecordsAreNew | internal/services/validator.go:30-116 | The valid records keep the given total and have distinct ids, none of them in the table. Each is the first well-formed record of its id in the file. |
| Validator.MalformedIgnored | internal/services/validator.go:44-73 | A record that fails a format check changes neither the result nor any count, wherever it appears. |
| Validator.RepeatCounted | internal/services/validator.go:75-80 | A well-formed record whose id appeared earlier in the file adds exactly one duplicate and changes nothing else. |
| Validator.StoreDuplicateCounted | internal/services/validator.go:105-109 | A candidate whose id is stored is left out and counted: the duplicates are the in-file ones plus exactly one per candidate whose id the table holds, so at least one more. |
| Validator.StoreDuplicatesCard | internal/services/validator.go:105-109 | With distinct candidate ids, the store-duplicate count is the number of candidates whose id is in the lookup's answer. |
| Validator.StoreDuplicatesPositive | internal/services/validator.go:106-108 | A stored candidate makes the stored-duplicate count positive. |
| Validator.TypeRecordOf | internal/services/validator.go:43-95 | A raw record whose fields each read back as those of a price with non-blank names and a non-negative price is typed as that price. |
| Validator.PriceFieldReadBack | internal/services/csv.go:98 | A non-negative whole number of cents below the float64 overflow bound is written as a price column that the validator reads back exactly. |
| Validator.TypeFormatted | internal/services/csv.go:93-100 | The validator accepts the row Generate writes for an exportable price, and gives back exactly that price. |
| Validator.RowFormatted | internal/services/csv.go:93-100 | The row Generate writes for an exportable price, read back by the CSV reader, is typed as that price. |
| Validator.ClassifyFormatted | internal/services/csv.go:93-100 | The typed records read from the generated rows, as the reader returns them, are the exported prices, in order. |
| Validator.RunDistinct | internal/services/validator.go:75-95 | With no repeated id, phase 1 keeps every record and counts no duplicate. |
| Validator.ReadBackGenerated | internal/services/csv.go:33-112 | Generate then Parse then phase 1 of validation gives back the exported prices unchanged, with no duplicate. |
| Archive.FirstCsv | internal/services/archive.go:40-41 | The index where the search stops is the first name that ends in ".csv" in any letter case. |
| Archive.CsvNameIgnoresCase | internal/services/archive.go:41 | A name is a CSV name exactly when it ends in '.', then c, s and v in either case. |
| Archive.ZipResult | internal/services/archive.go:33-58 | A ZIP result is the whole readable body of a file with a CSV name, and its errors are only the four ZIP errors. |
| Archive.TarResult | internal/services/archive.go:61-86 | A TAR result is the whole readable body of an entry with a CSV name, and its errors are only the three TAR errors. |
| Archive.ExtractResult | internal/services/archive.go:21-30 | Any type other than "zip" and "tar" is refused whatever the bytes, and only those two types can succeed. |
| Archive.ExtractZip | internal/services/archive.go:33-58 | The ZIP loop returns the reference result: reader error, open error or read error of the first CSV file, its bytes, or "no CSV". |
| Archive.TarReader.Next | internal/services/archive.go:66-72 | Each call returns the next header and advances by one. At the end it returns EOF or the reader's error and stays put. |
| Archive.TarReader.ReadAll | internal/services/archive.go:76 | Reading returns the content of the entry whose header was last returned. |
| Archive.ExtractTar | internal/services/archive.go:61-86 | The TAR loop returns the reference result: the first CSV entry's bytes or read error, the reader's error before any CSV, or "no CSV". |
| Archive.Extract | internal/services/archive.go:21-30 | Dispatch on the archive type returns the reference extraction result. |
| Archive.OnlyZipAndTar | internal/services/archive.go:22-29 | The unsupported-type error happens exactly for types other than "zip" and "tar". |
| Archive.ZipSelectsFirstCsv | internal/services/archive.go:33-58 | A ZIP yields bytes d exactly when its first CSV file opens and reads as d. |
| Archive.TarSelectsFirstCsv | internal/services/archive.go:61-86 | A TAR yields bytes d exactly when its first CSV entry reads as d. |
| Archive.NoCsvIsAnError | internal/services/archive.go:33-86 | Without a CSV name the ZIP answer is "no CSV", and the TAR answer is "no CSV" or the reader's error. |
| Archive.UnreadableIsAnError | internal/services/archive.go:33-86 | An unreadable ZIP is an error, and so is a TAR stream that breaks before a CSV entry. |
| Archive.TarIgnoresKind | internal/services/archive.go:65-83 | The TAR result depends only on names, contents and the stream's end, not on entry kinds. |
| Archive.HiddenMetadataSelected | internal/services/archive.go:75 | A directory entry is passed over by name, but a "._name.csv" metadata file before the real CSV file is selected. |
| Handlers.PricesHandler.HandlePost | internal/handlers/prices_post.go:38-139 | The response and the table after the request are the reference outcome `Post` of the table before it. |
| Handlers.Post | internal/handlers/prices_post.go:38-139 | The answer is 200, 400 or 500; a 200 carries the upload counts and any other status an error message; a 400 leaves the table unchanged. |
| Handlers.Ingest | internal/handlers/prices_post.go:92-138 | Once the CSV bytes are split, the answer is 200, 400 or 500; a 200 carries the upload counts; a 400 leaves the table unchanged. |
| Handlers.EmptyTypeIsZip | internal/handlers/prices_post.go:43-46 | A missing type is handled as type=zip. |
| Handlers.UnknownTypeRejected | internal/handlers/prices_post.go:49-53 | Any other type answers 400 "invalid archive type" and leaves the table alone. |
| Handlers.BadRequestChangesNothing | internal/handlers/prices_post.go:43-98 | The answer is 400 exactly when the type, form, file, archive or CSV step fails, and then the table is unchanged. |
| Handlers.IngestOnlyAppends | internal/handlers/prices_post.go:92-125 | Processing a CSV never removes or changes stored rows; it only appends, and the table stays valid. |
| Handlers.PostOnlyAppends | internal/handlers/prices_post.go:38-139 | Whatever the request, the table after it extends the table before it and stays valid. |
| Handlers.IngestOutcome | internal/handlers/prices_post.go:101-138 | A failed validation answers 500 "database error" and changes nothing. Otherwise the valid records are inserted. Then a failed statistics query answers 500, or the answer is 200 with the file's count, the duplicate count and the whole table's item count, category count and price sum. |
| Handlers.ZipUploadIngested | internal/handlers/prices_post.go:83-98 | An upload whose ZIP holds a readable CSV is processed as that CSV's records. |
| Handlers.Phase2Batch | internal/services/validator.go:99-113 | For a duplicate-free batch whose ids fit INTEGER, validation keeps the unstored prices and counts the stored ones. |
| Handlers.ValidateBatch | internal/services/validator.go:30-116 | Validating the CSV that Generate writes for a duplicate-free batch with ids that fit INTEGER keeps exactly its unstored prices. It reports the batch size as total and the stored ones as duplicates. |
| Handlers.IngestBatch | internal/handlers/prices_post.go:92-138 | Processing the generated CSV of a batch gives the batch outcome. |
| Handlers.UploadIsBatch | internal/handlers/prices_post.go:38-139 | An upload that carries the generated CSV of a batch gives the batch outcome. |
| Handlers.UploadBatch | internal/handlers/prices_post.go:38-139 | Such an upload inserts the unstored prices and answers 200. The answer gives the batch size, the stored ones as duplicates and the new table size. |
| Handlers.UploadWideId | internal/handlers/prices_post.go:101-107 | An upload of generated rows in which one id lies outside INTEGER's range answers 500 "database error" and inserts nothing. |
| Handlers.UploadAllNew | internal/handlers/prices_post.go:38-139 | An upload of new prices that fit the columns, with no U+0000 in name or category, appends them all. It answers 200 with no duplicates and the table size plus the batch size. |
| Handlers.UploadIntoEmpty | internal/handlers/prices_post.go:38-139 | The first upload into an empty table stores the batch as it is, when every price fits the columns, U+0000 refusal included. |
| Handlers.FirstUpload | internal/handlers/prices_post.go:38-139 | Three new prices into an empty table: 3 read, 0 duplicates, 3 items. |
| Handlers.RepeatedBatch | internal/services/validator.go:105-113 | Re-sending two stored ids with one new id keeps only the new price and counts two duplicates; the new price is appended. |
| Handlers.SecondUpload | internal/handlers/prices_post.go:38-139 | A batch that repeats two stored ids and adds one answers 3 read, 2 duplicates, 4 items. Only the new row is added, and the stored rows keep their old values. |
| Handlers.ReuploadScenario | internal/handlers/prices_post.go:38-139 | Upload ids 1,2,3, then ids 2,3,4: the first answers 3/0/3, the second 3/2/4, and the table ends with the four original rows. |

## Left out

- The byte formats of CSV, ZIP and TAR belong to encoding/csv, archive/zip and archive/tar and are not modelled. Parse takes the records the CSV lexer splits out, a lexer fault included. The archive readers are given as what they read: a file list, or a header stream ending in EOF or an error.
- Csv.Parse: the short-row skip (`len(row) < 5`, internal/services/csv.go:63-66) is modelled, but under the default reader a record whose field count differs from the header's is already a read error. So with a header of at least 5 fields the skip cannot happen; `Csv.ParseWithDefaultReader` states the resulting behaviour.
- Csv.Generate: csv.Writer's write and flush errors are left out. Writing to an in-memory buffer does not fail.
- GoText.ParseDecimal: models strconv.ParseFloat for plain decimal text only (sign, digits, one optional point). Exponents, hexadecimal floats, underscores, "inf" and "NaN" are rejected, although ParseFloat accepts them.
- GoText.ParseDecimal: the price is the exact decimal value (a real), not the nearest float64. Values at or beyond the float64 overflow bound are rejected, as ParseFloat's range error does, but underflow and rounding to a nearby float64 are not modelled. Likewise FormatPrice rounds the exact value half to even, while the read-back lemmas are stated for whole numbers of cents below the overflow bound.
- GoText.AtoiItoa, GoText.FormatDateReadBack: the read-back is proved only within the stated limits, ids in the 64-bit range and years 0 to 9999; Format of other years writes other widths that the date parser rejects.
- Csv.ReadBack: csv.Writer writes a carriage return inside a field as it is, and csv.Reader turns each "\r\n" into "\n", so the round trip through Generate and Parse does not return such a field unchanged (`Csv.CrLfReadAsLf`). The round-trip lemmas are stated for names and categories without a carriage return (`Csv.WritesVerbatim`). The writer's other quoting is undone by the reader and is not modelled byte by byte.
- GoText.ParseDate: covers time.Parse with the "2006-01-02" layout and years 0000-9999; the date has no time of day or time zone.
- GoText.Atoi: Go's int is 64 bits wide. Atoi's range check is modelled; the id is an unbounded integer elsewhere.
- Repository.PriceRepository.BulkInsert: the NUMERIC(10,2) column rounds a stored price to cents. The model stores the exact price and decides on the exact price whether the insert fails.
- Repository.PriceRepository.BulkInsert: the server's coercion of a value to its column type before the constraints are checked is not modelled. A VARCHAR(255) value whose characters beyond 255 are all spaces is truncated and stored, and a price in (-0.005, 0) is rounded to 0.00 and passes CHECK (price >= 0); the model rejects both rows. The only caller, HandlePost, passes trimmed texts (so an over-long text ends in a non-space character) and non-negative prices, so this never changes the outcome of an upload.
- Repository.PriceRepository.BulkInsert: inserts that fail for connection faults are not modelled. In the model, a row is rejected for a taken id, a column constraint (INTEGER id range, VARCHAR(255), NUMERIC(10,2) bound, CHECK price >= 0), or a U+0000 character in name or category, which a UTF8 database refuses. Other server-side encoding checks are not modelled. Text lengths are counted in characters.
- Handlers.PricesHandler.HandlePost: the "failed to insert data" branch (internal/handlers/prices_post.go:110-116) is unreachable, because BulkInsert always returns nil. The model proves that BulkInsert returns no error and omits the branch.
- Handlers.PricesHandler.HandlePost: the logging, the Content-Type header, the JSON encoding of the body and the 32 MB in-memory form limit are left out. Form parsing, file lookup and file reading are the three failure cases of `FormFile`.
- Database faults of CheckExistingIDs and GetStatistics are boolean parameters; the SQL text and the driver are not modelled. The one server-side failure that depends on the data is modelled: an id outside INTEGER's range in the `id = ANY($1)` parameter fails the lookup.
- Concurrent requests are not modelled. Each request runs against the table as it is, and the database interleaves concurrent requests.
- The archive search in the TAR loop does not skip directories or macOS "._" metadata files, because the code tests only the name (internal/services/archive.go:75). The model follows the code, and `Archive.HiddenMetadataSelected` exhibits the case.
- internal/handlers/prices_get.go (the export endpoint), main.go, internal/config and internal/database (connection and migrations) are not part of this model. The table's column declarations in internal/database/migrations.go:12-18 only decide which inserts fail.
