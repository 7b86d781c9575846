/**
 * The upload endpoint (internal/handlers/prices_post.go, PricesHandler.HandlePost): the order of
 * its steps, the status code each failure maps to, and the response it assembles.
 *
 * The HTTP request is given as its "type" query parameter and what the multipart form yields;
 * the response as its status code and its JSON body. encoding/csv's splitting of the extracted
 * bytes into records is the parameter `lex`; the faults of the two database reads are flags.
 */
module Handlers {
  import opened Results
  import opened Models
  import opened Archive
  import opened Csv
  import opened Repository
  import opened Validator

  /** What ParseMultipartForm, FormFile("file") and io.ReadAll yield for the upload. */
  datatype FormFile = FormUnparsable | FileMissing | FileUnreadable | File(payload: Payload)

  datatype Request = Request(archiveType: string, form: FormFile)

  datatype Body = ErrorBody(message: string) | Uploaded(upload: UploadResponse)

  datatype Response = Response(status: int, body: Body)

  const StatusOK: int := 200
  const StatusBadRequest: int := 400
  const StatusInternalServerError: int := 500

  function Failure(status: int, message: string): Response {
    Response(status, ErrorBody(message))
  }

  /** The archive type asked for: "zip" when the parameter is missing or empty. */
  function ArchiveTypeOf(query: string): string {
    if query == "" then "zip" else query
  }

  /** The response to an upload together with the table it leaves behind. */
  datatype Outcome = Outcome(response: Response, table: seq<Price>)

  /**
   * Steps 4 to 8, once the CSV bytes are split into records: parse, validate, insert, count.
   * The status is 200, 400 or 500; a 200 carries the upload counts and every other status an
   * error message; a 400 leaves the table as it was.
   */
  function Ingest(table: seq<Price>, records: seq<Lexed>, lookupFails: bool, statsFails: bool): (out: Outcome)
    ensures out.response.status in {StatusOK, StatusBadRequest, StatusInternalServerError}
    ensures out.response.status == StatusOK <==> out.response.body.Uploaded?
    ensures out.response.status == StatusBadRequest ==> out.table == table
  {
    match ParseReads(DefaultReader(records))
    case Err(_) => Outcome(Failure(StatusBadRequest, "invalid CSV format"), table)
    case Ok((raws, totalCount)) =>
      match ValidateSpec(raws, totalCount, table, lookupFails)
      case Err(_) => Outcome(Failure(StatusInternalServerError, "database error"), table)
      case Ok(v) =>
        var after := InsertAll(table, v.validRecords);
        if statsFails then Outcome(Failure(StatusInternalServerError, "database error"), after)
        else
          var s := StatisticsOf(after);
          Outcome(Response(StatusOK, Uploaded(UploadResponse(v.totalCount, v.duplicatesCount, s.totalItems, s.totalCategories, s.totalPrice))), after)
  }

  /**
   * HandlePost as a function of the table before the request. The status is 200, 400 or 500;
   * a 200 carries the upload counts and every other status an error message; a 400 leaves the
   * table as it was.
   */
  function Post(table: seq<Price>, req: Request, lex: Bytes -> seq<Lexed>, lookupFails: bool, statsFails: bool): (out: Outcome)
    ensures out.response.status in {StatusOK, StatusBadRequest, StatusInternalServerError}
    ensures out.response.status == StatusOK <==> out.response.body.Uploaded?
    ensures out.response.status == StatusBadRequest ==> out.table == table
  {
    var archiveType := ArchiveTypeOf(req.archiveType);
    if archiveType != "zip" && archiveType != "tar" then Outcome(Failure(StatusBadRequest, "invalid archive type"), table)
    else
      match req.form
      case FormUnparsable => Outcome(Failure(StatusBadRequest, "failed to parse form"), table)
      case FileMissing => Outcome(Failure(StatusBadRequest, "file is required"), table)
      case FileUnreadable => Outcome(Failure(StatusBadRequest, "failed to read file"), table)
      case File(payload) =>
        match ExtractResult(payload, archiveType)
        case Err(_) => Outcome(Failure(StatusBadRequest, "corrupted archive"), table)
        case Ok(csvData) => Ingest(table, lex(csvData), lookupFails, statsFails)
  }

  /** PricesHandler: the services are stateless, the repository holds the table. */
  class PricesHandler {
    const repo: PriceRepository

    constructor (repo: PriceRepository)
      ensures this.repo == repo
    {
      this.repo := repo;
    }

    /**
     * HandlePost. BulkInsert never reports an error (it skips failing rows), so the source's
     * "failed to insert data" response cannot occur and is not written here.
     */
    method HandlePost(req: Request, lex: Bytes -> seq<Lexed>, lookupFails: bool, statsFails: bool)
      returns (resp: Response)
      requires repo.Valid()
      modifies repo
      ensures repo.Valid()
      ensures Outcome(resp, repo.rows) == Post(old(repo.rows), req, lex, lookupFails, statsFails)
    {
      // Step 1: the archive type
      var archiveType := req.archiveType;
      if archiveType == "" {
        archiveType := "zip";
      }
      if archiveType != "zip" && archiveType != "tar" {
        return Failure(StatusBadRequest, "invalid archive type");
      }
      // Step 2: the uploaded file
      if req.form.FormUnparsable? {
        return Failure(StatusBadRequest, "failed to parse form");
      }
      if req.form.FileMissing? {
        return Failure(StatusBadRequest, "file is required");
      }
      if req.form.FileUnreadable? {
        return Failure(StatusBadRequest, "failed to read file");
      }
      var fileData := req.form.payload;
      // Step 3: the CSV file of the archive
      var csvData := Extract(fileData, archiveType);
      if csvData.Err? {
        return Failure(StatusBadRequest, "corrupted archive");
      }
      // Step 4: the raw records
      var parsed := Parse(lex(csvData.value));
      if parsed.Err? {
        return Failure(StatusBadRequest, "invalid CSV format");
      }
      var (rawRecords, totalCount) := parsed.value;
      // Step 5: validation and duplicates
      var validation := Validate(repo, rawRecords, totalCount, lookupFails);
      if validation.Err? {
        return Failure(StatusInternalServerError, "database error");
      }
      var v := validation.value;
      // Step 6: insertion
      var _ := repo.BulkInsert(v.validRecords);
      // Step 7: statistics of the whole table
      var stats := repo.GetStatistics(statsFails);
      if stats.Err? {
        return Failure(StatusInternalServerError, "database error");
      }
      // Step 8: the response
      var s := stats.value;
      return Response(StatusOK, Uploaded(UploadResponse(v.totalCount, v.duplicatesCount, s.totalItems, s.totalCategories, s.totalPrice)));
    }
  }

  // ---------------------------------------------------------------------------
  // Properties
  // ---------------------------------------------------------------------------

  /** A missing or empty type is the same request as type=zip. */
  lemma EmptyTypeIsZip(table: seq<Price>, form: FormFile, lex: Bytes -> seq<Lexed>, lookupFails: bool, statsFails: bool)
    ensures Post(table, Request("", form), lex, lookupFails, statsFails) ==
            Post(table, Request("zip", form), lex, lookupFails, statsFails)
  {
  }

  /** Any other type than zip or tar is refused with 400 before the file is looked at. */
  lemma UnknownTypeRejected(table: seq<Price>, req: Request, lex: Bytes -> seq<Lexed>, lookupFails: bool, statsFails: bool)
    requires req.archiveType !in {"", "zip", "tar"}
    ensures Post(table, req, lex, lookupFails, statsFails) == Outcome(Failure(StatusBadRequest, "invalid archive type"), table)
  {
  }

  /**
   * A request is refused with 400 exactly when the type, the form, the archive or the CSV
   * header or rows are bad, and such a request leaves the table as it was.
   */
  lemma BadRequestChangesNothing(table: seq<Price>, req: Request, lex: Bytes -> seq<Lexed>, lookupFails: bool, statsFails: bool)
    ensures var out := Post(table, req, lex, lookupFails, statsFails);
            var archiveType := ArchiveTypeOf(req.archiveType);
            && (out.response.status == StatusBadRequest <==>
                  || archiveType !in {"zip", "tar"}
                  || !req.form.File?
                  || ExtractResult(req.form.payload, archiveType).Err?
                  || ParseReads(DefaultReader(lex(ExtractResult(req.form.payload, archiveType).value))).Err?)
            && (out.response.status == StatusBadRequest ==> out.table == table)
  {
  }

  /** Steps 4 to 8 only append to the table, and keep it keyed by id within its constraints. */
  lemma IngestOnlyAppends(table: seq<Price>, records: seq<Lexed>, lookupFails: bool, statsFails: bool)
    requires ValidTable(table)
    ensures var after := Ingest(table, records, lookupFails, statsFails).table;
            |table| <= |after| && after[..|table|] == table && ValidTable(after)
  {
    var parsed := ParseReads(DefaultReader(records));
    if parsed.Ok? {
      var v := ValidateSpec(parsed.value.0, parsed.value.1, table, lookupFails);
      if v.Ok? {
        InsertAllAppends(table, v.value.validRecords);
        InsertAllValid(table, v.value.validRecords);
      }
    }
  }

  /**
   * Whatever happens, the table only grows: the rows it had are kept as they were, in front of
   * any new ones, and it stays keyed by id within its column constraints.
   */
  lemma PostOnlyAppends(table: seq<Price>, req: Request, lex: Bytes -> seq<Lexed>, lookupFails: bool, statsFails: bool)
    requires ValidTable(table)
    ensures var after := Post(table, req, lex, lookupFails, statsFails).table;
            |table| <= |after| && after[..|table|] == table && ValidTable(after)
  {
    var archiveType := ArchiveTypeOf(req.archiveType);
    if archiveType in {"zip", "tar"} && req.form.File? && ExtractResult(req.form.payload, archiveType).Ok? {
      var records := lex(ExtractResult(req.form.payload, archiveType).value);
      assert Post(table, req, lex, lookupFails, statsFails) == Ingest(table, records, lookupFails, statsFails);
      IngestOnlyAppends(table, records, lookupFails, statsFails);
    } else {
      assert Post(table, req, lex, lookupFails, statsFails).table == table;
    }
  }

  /**
   * Once the CSV is parsed: a failed existing-id lookup gives 500 and inserts nothing; a failed
   * statistics read gives 500 after the insert, which stays (there is no rollback); otherwise
   * the response is 200 with the counts of the validation and the statistics of the table after
   * the insert, so the statistics include the rows just added.
   */
  lemma IngestOutcome(table: seq<Price>, records: seq<Lexed>, lookupFails: bool, statsFails: bool)
    requires ParseReads(DefaultReader(records)).Ok?
    ensures var (raws, totalCount) := ParseReads(DefaultReader(records)).value;
            var validation := ValidateSpec(raws, totalCount, table, lookupFails);
            var out := Ingest(table, records, lookupFails, statsFails);
            && (validation.Err? ==> out == Outcome(Failure(StatusInternalServerError, "database error"), table))
            && (validation.Ok? ==>
                  var v := validation.value;
                  var after := InsertAll(table, v.validRecords);
                  && out.table == after
                  && (statsFails ==> out.response == Failure(StatusInternalServerError, "database error"))
                  && (!statsFails ==>
                        && out.response.status == StatusOK && out.response.body.Uploaded?
                        && out.response.body.upload.totalCount == totalCount
                        && out.response.body.upload.duplicatesCount == v.duplicatesCount
                        && out.response.body.upload.totalItems == |after|
                        && out.response.body.upload.totalCategories == |Categories(after)|
                        && out.response.body.upload.totalPrice == SumPrices(after)))
  {
  }

  // ---------------------------------------------------------------------------
  // Uploading what Generate writes
  // ---------------------------------------------------------------------------

  /** A ZIP upload holding one CSV file whose records are the rows Generate writes for `prices`. */
  predicate UploadsRows(req: Request, lex: Bytes -> seq<Lexed>, prices: seq<Price>) {
    && ArchiveTypeOf(req.archiveType) == "zip"
    && req.form.File?
    && ZipResult(req.form.payload.asZip).Ok?
    && lex(ZipResult(req.form.payload.asZip).value) == ReadBack(CsvRows(prices))
  }

  /** Phase 2 on a batch: the records whose id the table holds are the store duplicates. */
  lemma Phase2Batch(table: seq<Price>, prices: seq<Price>, totalCount: int)
    requires forall p :: p in prices ==> IsInt32(p.id)
    ensures Phase2(Scan(IdsOf(prices), prices, 0), totalCount, table, false) ==
              Ok(ValidationResult(Fresh(prices, IdsOf(table)), totalCount, StoreDuplicates(prices, IdsOf(table))))
  {
    IdsInOrderInt32(prices);
    var ids := IdsInOrder(prices);
    var existing := ExistingIds(table, ids, false).value;
    forall p | p in prices ensures p.id in existing <==> p.id in IdsOf(table) {
      IdsInOrderMembers(prices, p.id);
    }
    FreshAgree(prices, existing, IdsOf(table));
  }

  /**
   * Validating the rows Generate writes for exportable records with distinct ids: the records
   * whose id the table holds are the duplicates, and the others are valid, in order.
   */
  lemma ValidateBatch(table: seq<Price>, prices: seq<Price>)
    requires KeyedById(prices) && forall p :: p in prices ==> Exportable(p) && IsInt32(p.id)
    ensures ParseReads(DefaultReader(ReadBack(CsvRows(prices)))).Ok?
    ensures var (raws, totalCount) := ParseReads(DefaultReader(ReadBack(CsvRows(prices)))).value;
            ValidateSpec(raws, totalCount, table, false) ==
              Ok(ValidationResult(Fresh(prices, IdsOf(table)), |prices|, StoreDuplicates(prices, IdsOf(table))))
  {
    ReadBackGenerated(prices);
    Phase2Batch(table, prices, |prices|);
  }

  /** A ZIP upload whose CSV file can be read goes on to steps 4 to 8 with that file's records. */
  lemma ZipUploadIngested(table: seq<Price>, req: Request, lex: Bytes -> seq<Lexed>, lookupFails: bool, statsFails: bool)
    requires ArchiveTypeOf(req.archiveType) == "zip" && req.form.File? && ZipResult(req.form.payload.asZip).Ok?
    ensures Post(table, req, lex, lookupFails, statsFails) ==
              Ingest(table, lex(ZipResult(req.form.payload.asZip).value), lookupFails, statsFails)
  {
    assert ExtractResult(req.form.payload, "zip") == ZipResult(req.form.payload.asZip);
  }

  /** The response and the table after steps 4 to 8 on such a batch. */
  function BatchOutcome(table: seq<Price>, prices: seq<Price>): Outcome {
    var after := InsertAll(table, Fresh(prices, IdsOf(table)));
    var s := StatisticsOf(after);
    Outcome(Response(StatusOK, Uploaded(UploadResponse(|prices|, StoreDuplicates(prices, IdsOf(table)),
                                                       s.totalItems, s.totalCategories, s.totalPrice))), after)
  }

  lemma IngestBatch(table: seq<Price>, prices: seq<Price>)
    requires KeyedById(prices) && forall p :: p in prices ==> Exportable(p) && IsInt32(p.id)
    ensures Ingest(table, ReadBack(CsvRows(prices)), false, false) == BatchOutcome(table, prices)
  {
    ValidateBatch(table, prices);
  }

  lemma UploadIsBatch(table: seq<Price>, req: Request, lex: Bytes -> seq<Lexed>, prices: seq<Price>)
    requires UploadsRows(req, lex, prices)
    requires KeyedById(prices) && forall p :: p in prices ==> Exportable(p) && IsInt32(p.id)
    ensures Post(table, req, lex, false, false) == BatchOutcome(table, prices)
  {
    ZipUploadIngested(table, req, lex, false, false);
    IngestBatch(table, prices);
  }

  /**
   * Uploading a batch in which one record's id is outside INTEGER: the existing-id lookup
   * fails, so the response is 500 and nothing is inserted, whatever the other records are.
   */
  lemma UploadWideId(table: seq<Price>, req: Request, lex: Bytes -> seq<Lexed>, prices: seq<Price>,
                     lookupFails: bool, statsFails: bool, p: Price)
    requires UploadsRows(req, lex, prices)
    requires KeyedById(prices) && forall q :: q in prices ==> Exportable(q)
    requires p in prices && !IsInt32(p.id)
    ensures Post(table, req, lex, lookupFails, statsFails) == Outcome(Failure(StatusInternalServerError, "database error"), table)
  {
    ReadBackGenerated(prices);
    var (raws, totalCount) := ParseReads(DefaultReader(ReadBack(CsvRows(prices)))).value;
    WideIdFails(raws, totalCount, table, lookupFails, p);
    ZipUploadIngested(table, req, lex, lookupFails, statsFails);
  }

  /** A successful upload response carrying these three counts. */
  predicate Reports(r: Response, totalCount: int, duplicatesCount: int, totalItems: int) {
    && r.status == StatusOK && r.body.Uploaded?
    && r.body.upload.totalCount == totalCount
    && r.body.upload.duplicatesCount == duplicatesCount
    && r.body.upload.totalItems == totalItems
  }

  /**
   * Uploading a batch of exportable records with distinct ids: every row counts towards the
   * total, the ones whose id the table already holds are the duplicates, and the others are
   * appended in order; the item count is that of the table after the insert.
   */
  lemma UploadBatch(table: seq<Price>, req: Request, lex: Bytes -> seq<Lexed>, prices: seq<Price>)
    requires UploadsRows(req, lex, prices)
    requires KeyedById(prices) && forall p :: p in prices ==> Exportable(p) && IsInt32(p.id)
    ensures var out := Post(table, req, lex, false, false);
            && out.table == InsertAll(table, Fresh(prices, IdsOf(table)))
            && Reports(out.response, |prices|, StoreDuplicates(prices, IdsOf(table)), |out.table|)
  {
    UploadIsBatch(table, req, lex, prices);
  }

  /**
   * A batch of well-formed rows with distinct ids, none of them in the table: no duplicate, and
   * every record is appended, in order, so the item count grows by the size of the batch.
   */
  lemma UploadAllNew(table: seq<Price>, req: Request, lex: Bytes -> seq<Lexed>, prices: seq<Price>)
    requires UploadsRows(req, lex, prices)
    requires KeyedById(prices) && forall p :: p in prices ==> Exportable(p) && FitsColumns(p) && p.id !in IdsOf(table)
    ensures var out := Post(table, req, lex, false, false);
            out.table == table + prices && Reports(out.response, |prices|, 0, |table| + |prices|)
  {
    UploadBatch(table, req, lex, prices);
    FreshDisjoint(prices, IdsOf(table));
    InsertAllNew(table, prices);
  }

  /** Into an empty table, a batch of well-formed rows with distinct ids is stored whole. */
  lemma UploadIntoEmpty(req: Request, lex: Bytes -> seq<Lexed>, prices: seq<Price>)
    requires UploadsRows(req, lex, prices)
    requires KeyedById(prices) && forall p :: p in prices ==> Exportable(p) && FitsColumns(p)
    ensures var out := Post([], req, lex, false, false);
            out.table == prices && Reports(out.response, |prices|, 0, |prices|)
  {
    UploadAllNew([], req, lex, prices);
    assert [] + prices == prices;
  }

  /** Three prices with pairwise different ids form a keyed batch. */
  lemma DistinctIds(p1: Price, p2: Price, p3: Price)
    requires p1.id != p2.id && p1.id != p3.id && p2.id != p3.id
    ensures KeyedById([p1, p2, p3])
  {
  }

  /** First upload of three records with distinct ids into an empty table: all three are stored. */
  lemma FirstUpload(lex: Bytes -> seq<Lexed>, req: Request, p1: Price, p2: Price, p3: Price)
    requires p1.id != p2.id && p1.id != p3.id && p2.id != p3.id
    requires forall p :: p in [p1, p2, p3] ==> Exportable(p) && FitsColumns(p)
    requires UploadsRows(req, lex, [p1, p2, p3])
    ensures var first := Post([], req, lex, false, false);
            Reports(first.response, 3, 0, 3) && first.table == [p1, p2, p3]
  {
    DistinctIds(p1, p2, p3);
    UploadIntoEmpty(req, lex, [p1, p2, p3]);
  }

  /** Phase 2 and the insert on the second batch of the re-upload scenario. */
  lemma RepeatedBatch(p1: Price, p2: Price, p3: Price, q2: Price, q3: Price, p4: Price)
    requires q2.id == p2.id && q3.id == p3.id && p4.id !in {p1.id, p2.id, p3.id} && FitsColumns(p4)
    ensures Fresh([q2, q3, p4], IdsOf([p1, p2, p3])) == [p4]
    ensures StoreDuplicates([q2, q3, p4], IdsOf([p1, p2, p3])) == 2
    ensures InsertAll([p1, p2, p3], [p4]) == [p1, p2, p3, p4]
  {
    var batch1 := [p1, p2, p3];
    var stored := IdsOf(batch1);
    assert p4.id !in stored by {
      assert forall p :: p in batch1 ==> p.id in {p1.id, p2.id, p3.id};
    }
    assert p2 in batch1 && p3 in batch1;
    assert [q2, q3, p4] == [q2, q3] + [p4];
    FreshAppend([q2, q3], [p4], stored);
    FreshAllStored([q2, q3], stored);
    FreshDisjoint([p4], stored);
    InsertAllNew(batch1, [p4]);
  }

  /**
   * Second upload over the first: a batch repeating the ids of the second and third stored
   * records and adding a new one; the two repeats are store duplicates and the new record is
   * appended.
   */
  lemma SecondUpload(lex: Bytes -> seq<Lexed>, req: Request,
                     p1: Price, p2: Price, p3: Price, q2: Price, q3: Price, p4: Price)
    requires p1.id != p2.id && p1.id != p3.id && p2.id != p3.id
    requires q2.id == p2.id && q3.id == p3.id && p4.id !in {p1.id, p2.id, p3.id}
    requires FitsColumns(p4) && forall p :: p in [q2, q3, p4] ==> Exportable(p) && IsInt32(p.id)
    requires UploadsRows(req, lex, [q2, q3, p4])
    ensures var second := Post([p1, p2, p3], req, lex, false, false);
            Reports(second.response, 3, 2, 4) && second.table == [p1, p2, p3, p4]
  {
    var batch1, batch2 := [p1, p2, p3], [q2, q3, p4];
    assert KeyedById(batch2) && forall p :: p in batch2 ==> Exportable(p) && IsInt32(p.id) by {
      DistinctIds(q2, q3, p4);
    }
    UploadBatch(batch1, req, lex, batch2);
    RepeatedBatch(p1, p2, p3, q2, q3, p4);
  }

  /**
   * Uploading three records with ids 1, 2, 3 and then three with ids 2, 3, 4: the second upload
   * reports two duplicates and the table ends with the four distinct records.
   */
  lemma ReuploadScenario(lex: Bytes -> seq<Lexed>, req1: Request, req2: Request,
                         p1: Price, p2: Price, p3: Price, q2: Price, q3: Price, p4: Price)
    requires p1.id == 1 && p2.id == 2 && p3.id == 3 && q2.id == 2 && q3.id == 3 && p4.id == 4
    requires forall p :: p in [p1, p2, p3, q2, q3, p4] ==> Exportable(p) && FitsColumns(p)
    requires UploadsRows(req1, lex, [p1, p2, p3]) && UploadsRows(req2, lex, [q2, q3, p4])
    ensures var first := Post([], req1, lex, false, false);
            var second := Post(first.table, req2, lex, false, false);
            Reports(first.response, 3, 0, 3) && Reports(second.response, 3, 2, 4)
            && second.table == [p1, p2, p3, p4]
  {
    var all := [p1, p2, p3, q2, q3, p4];
    assert forall p :: p in [p1, p2, p3] ==> p in all;
    FirstUpload(lex, req1, p1, p2, p3);
    assert forall p :: p in [q2, q3, p4] ==> p in all;
    SecondUpload(lex, req2, p1, p2, p3, q2, q3, p4);
  }
}
