/**
 * ValidatorService.Validate (internal/services/validator.go): a two-phase filter over the raw
 * records of an upload.
 *
 * Phase 1 drops every incomplete or malformed record, keeps the first well-formed record of each
 * id and counts the later ones as duplicates. Phase 2 asks the store which of the kept ids exist
 * and moves those records from the result to the duplicate count.
 */
module Validator {
  import opened Results
  import opened Models
  import opened GoText
  import opened Csv
  import opened Repository

  datatype ValidationResult = ValidationResult(validRecords: seq<Price>, totalCount: int, duplicatesCount: int)

  /** All five fields are non-blank. */
  predicate Complete(raw: RawPriceRecord) {
    && TrimSpace(raw.id) != [] && TrimSpace(raw.name) != [] && TrimSpace(raw.category) != []
    && TrimSpace(raw.price) != [] && TrimSpace(raw.createDate) != []
  }

  /**
   * The typed record of a raw one, or None when phase 1 skips it: a blank field, an id that is
   * not an int, a price that is not a number or is negative, or a date not in the form
   * YYYY-MM-DD. Every field is read after trimming white space, and names are stored trimmed.
   */
  function TypeRecord(raw: RawPriceRecord): Option<Price> {
    if !Complete(raw) then None
    else
      var id, price, date := Atoi(TrimSpace(raw.id)), ParseDecimal(TrimSpace(raw.price)), ParseDate(TrimSpace(raw.createDate));
      if id.None? || price.None? || price.value < 0.0 || date.None? then None
      else Some(Price(id.value, TrimSpace(raw.name), TrimSpace(raw.category), price.value, date.value))
  }

  /**
   * A typed record has an id in the range of int, a non-negative price, a calendar date, and
   * a name and a category that are non-blank and trimmed.
   */
  lemma TypedRecordShape(raw: RawPriceRecord)
    ensures !Complete(raw) ==> TypeRecord(raw).None?
    ensures var r := TypeRecord(raw);
            r.Some? ==>
              && MinInt64 <= r.value.id <= MaxInt64 && r.value.price >= 0.0
              && ValidDate(r.value.createDate)
              && r.value.name != [] && TrimSpace(r.value.name) == r.value.name
              && r.value.category != [] && TrimSpace(r.value.category) == r.value.category
  {
    TrimSpaceIdempotent(raw.name);
    TrimSpaceIdempotent(raw.category);
  }

  /** The typed form of each raw record, in order. */
  function Classify(raws: seq<RawPriceRecord>): (os: seq<Option<Price>>)
    ensures |os| == |raws|
    ensures forall i :: 0 <= i < |raws| ==> os[i] == TypeRecord(raws[i])
  {
    seq(|raws|, i requires 0 <= i < |raws| => TypeRecord(raws[i]))
  }

  lemma ClassifyAppend(a: seq<RawPriceRecord>, b: seq<RawPriceRecord>)
    ensures Classify(a + b) == Classify(a) + Classify(b)
  {
  }

  /** The present values, in order. */
  function Somes(os: seq<Option<Price>>): (r: seq<Price>)
    ensures |r| <= |os|
  {
    if os == [] then []
    else if os[|os| - 1].Some? then Somes(os[..|os| - 1]) + [os[|os| - 1].value]
    else Somes(os[..|os| - 1])
  }

  /** The well-formed records of the upload, typed, in order (repeated ids included). */
  function Typed(raws: seq<RawPriceRecord>): (r: seq<Price>)
    ensures |r| <= |raws|
  {
    Somes(Classify(raws))
  }

  // ---------------------------------------------------------------------------
  // Phase 1
  // ---------------------------------------------------------------------------

  /** The state of phase 1: the ids seen so far, the records kept and the duplicates counted. */
  datatype Scan = Scan(seen: set<int>, candidates: seq<Price>, duplicates: nat)

  const Start: Scan := Scan({}, [], 0)

  /**
   * Phase 1 on one record, given its typed form: a skipped record changes nothing, and a
   * well-formed one is either kept, at the end, or counted once as a duplicate, its id seen.
   */
  function Step(s: Scan, o: Option<Price>): (r: Scan)
    ensures o.Some? ==> r.seen == s.seen + {o.value.id}
    ensures |r.candidates| + r.duplicates == |s.candidates| + s.duplicates + (if o.Some? then 1 else 0)
    ensures |s.candidates| <= |r.candidates| && r.candidates[..|s.candidates|] == s.candidates
  {
    match o
    case None => s
    case Some(p) =>
      if p.id in s.seen then s.(duplicates := s.duplicates + 1)
      else Scan(s.seen + {p.id}, s.candidates + [p], s.duplicates)
  }

  /** Phase 1 on the typed forms, one after the other. */
  function Run(s: Scan, os: seq<Option<Price>>): Scan {
    if os == [] then s else Step(Run(s, os[..|os| - 1]), os[|os| - 1])
  }

  /**
   * Phase 1 from any state only adds: kept records stay, in front of the ones kept later, seen
   * ids stay seen, and each well-formed record adds one kept record or one duplicate.
   */
  lemma {:induction false} RunCounts(s: Scan, os: seq<Option<Price>>)
    ensures var r := Run(s, os);
            && |s.candidates| <= |r.candidates| && r.candidates[..|s.candidates|] == s.candidates
            && s.seen <= r.seen && s.duplicates <= r.duplicates
            && |r.candidates| + r.duplicates == |s.candidates| + s.duplicates + |Somes(os)|
  {
    if os != [] {
      RunCounts(s, os[..|os| - 1]);
      var before := Run(s, os[..|os| - 1]);
      assert before.candidates[..|s.candidates|] == s.candidates;
    }
  }

  /**
   * Phase 1 of Validate on the raw records: its kept records have distinct ids, and exactly
   * the ids of the well-formed records.
   */
  function Phase1(raws: seq<RawPriceRecord>): (s: Scan)
    ensures KeyedById(s.candidates) && s.seen == IdsOf(s.candidates) == IdsOf(Typed(raws))
  {
    RunKeyed(Classify(raws));
    Run(Start, Classify(raws))
  }

  /** A well-formed record whose id was seen adds one duplicate. */
  lemma StepOnRepeat(s: Scan, o: Option<Price>)
    requires o.Some? && o.value.id in s.seen
    ensures Step(s, o) == Scan(s.seen, s.candidates, s.duplicates + 1)
  {
  }

  /** Phase 1 on one more record takes one more step. */
  lemma RunNext(os: seq<Option<Price>>, k: nat)
    requires k < |os|
    ensures Run(Start, os[..k + 1]) == Step(Run(Start, os[..k]), os[k])
  {
    assert os[..k + 1][..k] == os[..k];
  }

  /** Phase 1 on two batches is phase 1 on the second, from where the first ended. */
  lemma {:induction false} RunAppend(s: Scan, a: seq<Option<Price>>, b: seq<Option<Price>>)
    ensures Run(s, a + b) == Run(Run(s, a), b)
  {
    if b == [] {
      assert a + b == a;
    } else {
      assert (a + b)[..|a + b| - 1] == a + b[..|b| - 1];
      RunAppend(s, a, b[..|b| - 1]);
    }
  }

  /** Phase 1 from the same seen ids and kept records, with k more duplicates counted. */
  lemma {:induction false} RunShiftsDuplicates(s: Scan, k: nat, os: seq<Option<Price>>)
    ensures Run(s.(duplicates := s.duplicates + k), os) == Run(s, os).(duplicates := Run(s, os).duplicates + k)
  {
    if os != [] {
      RunShiftsDuplicates(s, k, os[..|os| - 1]);
    }
  }

  lemma IdsOfAppend(rows: seq<Price>, p: Price)
    ensures IdsOf(rows + [p]) == IdsOf(rows) + {p.id}
  {
    assert forall q :: q in rows + [p] <==> q in rows || q == p;
  }

  /** Phase 1 keeps one record per id, for exactly the ids of the well-formed records. */
  lemma {:induction false} RunKeyed(os: seq<Option<Price>>)
    ensures var s := Run(Start, os);
            && KeyedById(s.candidates)
            && s.seen == IdsOf(s.candidates) == IdsOf(Somes(os))
  {
    if os != [] {
      var init := os[..|os| - 1];
      RunKeyed(init);
      var s := Run(Start, init);
      if os[|os| - 1].Some? {
        var p := os[|os| - 1].value;
        IdsOfAppend(Somes(init), p);
        if p.id !in s.seen {
          IdsOfAppend(s.candidates, p);
          forall i, j | 0 <= i < j < |s.candidates| + 1
            ensures (s.candidates + [p])[i].id != (s.candidates + [p])[j].id
          {
            if j == |s.candidates| {
              assert s.candidates[i] in s.candidates;
            }
          }
        }
      }
    }
  }

  /** For each id, phase 1 keeps the first well-formed record carrying it. */
  lemma {:induction false} RunFirstWins(os: seq<Option<Price>>, id: int)
    ensures Lookup(Run(Start, os).candidates, id) == Lookup(Somes(os), id)
  {
    if os != [] {
      var init := os[..|os| - 1];
      RunFirstWins(init, id);
      var s := Run(Start, init);
      assert Run(Start, os) == Step(s, os[|os| - 1]);
      if os[|os| - 1].Some? {
        var p := os[|os| - 1].value;
        assert Somes(os) == Somes(init) + [p];
        assert [p][1..] == [];
        LookupAppend(Somes(init), [p], id);
        if p.id !in s.seen {
          LookupAppend(s.candidates, [p], id);
        } else if id == p.id {
          RunKeyed(init);
          assert Lookup(s.candidates, id).Some?;
        }
      } else {
        assert Somes(os) == Somes(init);
      }
    }
  }

  /** For each id, phase 1 keeps the first well-formed record of the upload carrying it. */
  lemma Phase1Keeps(raws: seq<RawPriceRecord>)
    ensures forall id :: Lookup(Phase1(raws).candidates, id) == Lookup(Typed(raws), id)
  {
    forall id ensures Lookup(Phase1(raws).candidates, id) == Lookup(Typed(raws), id) {
      RunFirstWins(Classify(raws), id);
    }
  }

  // ---------------------------------------------------------------------------
  // Phase 2
  // ---------------------------------------------------------------------------

  /** The ids of the kept records, in order (validIDs). */
  function IdsInOrder(candidates: seq<Price>): seq<int> {
    if candidates == [] then []
    else IdsInOrder(candidates[..|candidates| - 1]) + [candidates[|candidates| - 1].id]
  }

  /** The i-th id looked up is the id of the i-th kept record. */
  lemma {:induction false} IdsInOrderIndex(candidates: seq<Price>)
    ensures |IdsInOrder(candidates)| == |candidates|
    ensures forall i :: 0 <= i < |candidates| ==> IdsInOrder(candidates)[i] == candidates[i].id
  {
    if candidates != [] {
      IdsInOrderIndex(candidates[..|candidates| - 1]);
    }
  }

  /** The ids looked up are exactly the ids of the kept records. */
  lemma {:induction false} IdsInOrderMembers(candidates: seq<Price>, id: int)
    ensures id in IdsInOrder(candidates) <==> id in IdsOf(candidates)
  {
    if candidates != [] {
      var init, p := candidates[..|candidates| - 1], candidates[|candidates| - 1];
      IdsInOrderMembers(init, id);
      IdsOfAppend(init, p);
      assert candidates == init + [p];
    }
  }

  /** The lookup refuses the ids exactly when a kept record's id is outside INTEGER. */
  lemma IdsInOrderInt32(candidates: seq<Price>)
    ensures AllInt32(IdsInOrder(candidates)) <==> forall p :: p in candidates ==> IsInt32(p.id)
  {
    var ids := IdsInOrder(candidates);
    IdsInOrderIndex(candidates);
    if !AllInt32(ids) {
      var i :| 0 <= i < |ids| && !IsInt32(ids[i]);
      assert candidates[i] in candidates;
    }
  }

  lemma IdsInOrderAppend(candidates: seq<Price>, p: Price)
    ensures IdsInOrder(candidates + [p]) == IdsInOrder(candidates) + [p.id]
  {
    assert (candidates + [p])[..|candidates|] == candidates;
  }

  /** The kept records whose id is not in the store, in order. */
  function Fresh(candidates: seq<Price>, existing: set<int>): (r: seq<Price>)
    ensures |r| <= |candidates|
    ensures forall p :: p in r ==> p in candidates && p.id !in existing
  {
    if candidates == [] then []
    else
      var init, p := candidates[..|candidates| - 1], candidates[|candidates| - 1];
      if p.id in existing then Fresh(init, existing) else Fresh(init, existing) + [p]
  }

  /** The number of kept records whose id is in the store. */
  function StoreDuplicates(candidates: seq<Price>, existing: set<int>): (n: nat)
    ensures n <= |candidates|
    ensures (forall p :: p in candidates ==> p.id !in existing) ==> n == 0
  {
    if candidates == [] then 0
    else
      StoreDuplicates(candidates[..|candidates| - 1], existing)
      + (if candidates[|candidates| - 1].id in existing then 1 else 0)
  }

  /** Phase 2 returns exactly the kept records whose id is not in the store. */
  lemma {:induction false} FreshMembers(candidates: seq<Price>, existing: set<int>)
    ensures forall p :: p in Fresh(candidates, existing) <==> p in candidates && p.id !in existing
  {
    if candidates != [] {
      var init, p := candidates[..|candidates| - 1], candidates[|candidates| - 1];
      FreshMembers(init, existing);
      assert forall q :: q in candidates <==> q in init || q == p;
    }
  }

  /** A kept record not among the ids the store reported for the lookup is not in the store. */
  lemma FreshNotStored(candidates: seq<Price>, existing: set<int>, table: seq<Price>)
    requires existing == set q | q in table && q.id in IdsInOrder(candidates) :: q.id
    ensures forall p :: p in Fresh(candidates, existing) ==> p.id !in IdsOf(table)
  {
    forall p | p in Fresh(candidates, existing) ensures p.id !in IdsOf(table) {
      var k :| 0 <= k < |candidates| && candidates[k] == p;
      IdsInOrderIndex(candidates);
    }
  }

  /** Phase 2 either returns a kept record or counts it as a duplicate. */
  lemma {:induction false} StoreDuplicatesCount(candidates: seq<Price>, existing: set<int>)
    ensures StoreDuplicates(candidates, existing) + |Fresh(candidates, existing)| == |candidates|
  {
    if candidates != [] {
      StoreDuplicatesCount(candidates[..|candidates| - 1], existing);
    }
  }

  /** Phase 2 on one more kept record. */
  lemma Phase2Next(candidates: seq<Price>, existing: set<int>, k: nat)
    requires k < |candidates|
    ensures var before, p := candidates[..k], candidates[k];
            && Fresh(candidates[..k + 1], existing) == (if p.id in existing then Fresh(before, existing) else Fresh(before, existing) + [p])
            && StoreDuplicates(candidates[..k + 1], existing) == StoreDuplicates(before, existing) + (if p.id in existing then 1 else 0)
  {
    assert candidates[..k + 1][..k] == candidates[..k];
  }

  /** Fresh keeps the order and the distinct ids of the kept records. */
  lemma {:induction false} FreshKeyed(candidates: seq<Price>, existing: set<int>)
    requires KeyedById(candidates)
    ensures KeyedById(Fresh(candidates, existing))
  {
    if candidates != [] {
      var init, p := candidates[..|candidates| - 1], candidates[|candidates| - 1];
      FreshKeyed(init, existing);
      FreshMembers(init, existing);
      var f := Fresh(init, existing);
      if p.id !in existing {
        forall i, j | 0 <= i < j < |f| + 1 ensures (f + [p])[i].id != (f + [p])[j].id {
          if j == |f| {
            assert f[i] in f;
            var k :| 0 <= k < |init| && init[k] == f[i];
            assert candidates[k] == f[i];
          }
        }
      }
    }
  }

  /** Phase 2 on two runs of kept records is phase 2 on each, one after the other. */
  lemma {:induction false} FreshAppend(a: seq<Price>, b: seq<Price>, existing: set<int>)
    ensures Fresh(a + b, existing) == Fresh(a, existing) + Fresh(b, existing)
    ensures StoreDuplicates(a + b, existing) == StoreDuplicates(a, existing) + StoreDuplicates(b, existing)
  {
    if b == [] {
      assert a + b == a;
    } else {
      var init := b[..|b| - 1];
      assert (a + b)[..|a + b| - 1] == a + init;
      FreshAppend(a, init, existing);
    }
  }

  /** Kept records none of whose ids the store holds are all returned, with no duplicate. */
  lemma {:induction false} FreshDisjoint(candidates: seq<Price>, existing: set<int>)
    requires forall i :: 0 <= i < |candidates| ==> candidates[i].id !in existing
    ensures Fresh(candidates, existing) == candidates
    ensures StoreDuplicates(candidates, existing) == 0
  {
    if candidates != [] {
      var init, p := candidates[..|candidates| - 1], candidates[|candidates| - 1];
      FreshDisjoint(init, existing);
      assert candidates == init + [p];
    }
  }

  /** Kept records all of whose ids the store holds are all duplicates. */
  lemma {:induction false} FreshAllStored(candidates: seq<Price>, existing: set<int>)
    requires forall i :: 0 <= i < |candidates| ==> candidates[i].id in existing
    ensures Fresh(candidates, existing) == []
    ensures StoreDuplicates(candidates, existing) == |candidates|
  {
    if candidates != [] {
      FreshAllStored(candidates[..|candidates| - 1], existing);
    }
  }

  /** Phase 2 depends only on which of the kept records' ids are among the existing ones. */
  lemma {:induction false} FreshAgree(candidates: seq<Price>, e1: set<int>, e2: set<int>)
    requires forall p :: p in candidates ==> (p.id in e1 <==> p.id in e2)
    ensures Fresh(candidates, e1) == Fresh(candidates, e2)
    ensures StoreDuplicates(candidates, e1) == StoreDuplicates(candidates, e2)
  {
    if candidates != [] {
      var init := candidates[..|candidates| - 1];
      assert forall p :: p in init ==> p in candidates;
      FreshAgree(init, e1, e2);
    }
  }

  // ---------------------------------------------------------------------------
  // Validate
  // ---------------------------------------------------------------------------

  /**
   * Phase 2 after phase 1 ended in s: the store lookup's error, or the kept records not in the
   * store together with the duplicates of both phases.
   */
  function Phase2(s: Scan, totalCount: int, table: seq<Price>, lookupFails: bool): (r: Result<ValidationResult, DbError>)
    ensures r.Ok? ==> r.value.totalCount == totalCount
    ensures r.Ok? ==> |r.value.validRecords| + r.value.duplicatesCount == |s.candidates| + s.duplicates
    ensures r.Ok? ==> forall p :: p in r.value.validRecords ==> p in s.candidates && p.id !in IdsOf(table)
  {
    match ExistingIds(table, IdsInOrder(s.candidates), lookupFails)
    case Err(e) => Err(e)
    case Ok(existing) =>
      StoreDuplicatesCount(s.candidates, existing);
      FreshNotStored(s.candidates, existing, table);
      Ok(ValidationResult(Fresh(s.candidates, existing), totalCount, s.duplicates + StoreDuplicates(s.candidates, existing)))
  }

  /** Phase 2 once the lookup has answered. */
  lemma Phase2Found(s: Scan, totalCount: int, table: seq<Price>, lookupFails: bool, existing: set<int>)
    requires ExistingIds(table, IdsInOrder(s.candidates), lookupFails) == Ok(existing)
    ensures Phase2(s, totalCount, table, lookupFails) ==
              Ok(ValidationResult(Fresh(s.candidates, existing), totalCount, s.duplicates + StoreDuplicates(s.candidates, existing)))
  {
  }

  /**
   * What Validate returns: totalCount is passed through, and every well-formed record is
   * accounted for once, as a valid record or a duplicate, so their sum never exceeds the rows.
   */
  function ValidateSpec(raws: seq<RawPriceRecord>, totalCount: int, table: seq<Price>, lookupFails: bool)
    : (r: Result<ValidationResult, DbError>)
    ensures r.Ok? ==> r.value.totalCount == totalCount
    ensures r.Ok? ==> |r.value.validRecords| + r.value.duplicatesCount == |Typed(raws)| <= |raws|
  {
    RunCounts(Start, Classify(raws));
    Phase2(Phase1(raws), totalCount, table, lookupFails)
  }

  /**
   * The completeness and format checks of phase 1 on one raw record, in the order Validate
   * makes them, each failing check skipping the record: the early-return form of the checks
   * TypeRecord states as one expression.
   */
  method CheckRecord(raw: RawPriceRecord) returns (typed: Option<Price>)
    ensures typed == TypeRecord(raw)
  {
    if TrimSpace(raw.id) == [] || TrimSpace(raw.name) == [] || TrimSpace(raw.category) == []
      || TrimSpace(raw.price) == [] || TrimSpace(raw.createDate) == []
    {
      return None;
    }
    var id := Atoi(TrimSpace(raw.id));
    if id.None? {
      return None;
    }
    var price := ParseDecimal(TrimSpace(raw.price));
    if price.None? || price.value < 0.0 {
      return None;
    }
    var date := ParseDate(TrimSpace(raw.createDate));
    if date.None? {
      return None;
    }
    return Some(Price(id.value, TrimSpace(raw.name), TrimSpace(raw.category), price.value, date.value));
  }

  /**
   * The first loop of Validate: the completeness and format checks and the duplicate check
   * within the upload. It yields the seen ids, the ids of the kept records in order, the kept
   * records and the number of in-upload duplicates.
   */
  method ScanRecords(raws: seq<RawPriceRecord>)
    returns (seen: set<int>, validIds: seq<int>, candidates: seq<Price>, duplicates: nat)
    ensures Scan(seen, candidates, duplicates) == Phase1(raws)
    ensures validIds == IdsInOrder(candidates)
  {
    seen, validIds, candidates, duplicates := {}, [], [], 0;
    ghost var forms := Classify(raws);
    for k := 0 to |raws|
      invariant Run(Start, forms[..k]) == Scan(seen, candidates, duplicates)
      invariant validIds == IdsInOrder(candidates)
    {
      RunNext(forms, k);
      var typed := CheckRecord(raws[k]);
      assert typed == forms[k];
      if typed.None? {
        continue;
      }
      var p := typed.value;
      if p.id in seen {
        duplicates := duplicates + 1;
        continue;
      }
      IdsInOrderAppend(candidates, p);
      seen := seen + {p.id};
      validIds := validIds + [p.id];
      candidates := candidates + [p];
    }
    assert forms[..|raws|] == forms;
  }

  /**
   * The second loop of Validate: the kept records whose id is not in the store, in order, and
   * the number of those whose id is.
   */
  method DropStored(candidates: seq<Price>, existing: set<int>) returns (valid: seq<Price>, stored: nat)
    ensures valid == Fresh(candidates, existing)
    ensures stored == StoreDuplicates(candidates, existing)
  {
    valid, stored := [], 0;
    for k := 0 to |candidates|
      invariant valid == Fresh(candidates[..k], existing)
      invariant stored == StoreDuplicates(candidates[..k], existing)
    {
      Phase2Next(candidates, existing, k);
      var record := candidates[k];
      if record.id in existing {
        stored := stored + 1;
      } else {
        valid := valid + [record];
      }
    }
    assert candidates[..|candidates|] == candidates;
  }

  /** Validation is phase 2 run on the state phase 1 ends in. */
  lemma ValidateSpecPhases(raws: seq<RawPriceRecord>, totalCount: int, table: seq<Price>, lookupFails: bool)
    ensures ValidateSpec(raws, totalCount, table, lookupFails) == Phase2(Phase1(raws), totalCount, table, lookupFails)
  {
  }

  /** ValidatorService.Validate. Nothing is written to the store. */
  method Validate(repo: PriceRepository, raws: seq<RawPriceRecord>, totalCount: int, lookupFails: bool)
    returns (r: Result<ValidationResult, DbError>)
    ensures r == ValidateSpec(raws, totalCount, repo.rows, lookupFails)
  {
    var seen, validIds, candidates, duplicates := ScanRecords(raws);
    ValidateSpecPhases(raws, totalCount, repo.rows, lookupFails);
    var existing := repo.CheckExistingIDs(validIds, lookupFails);
    if existing.Err? {
      return Err(existing.error);
    }
    var valid, stored := DropStored(candidates, existing.value);
    Phase2Found(Scan(seen, candidates, duplicates), totalCount, repo.rows, lookupFails, existing.value);
    return Ok(ValidationResult(valid, totalCount, duplicates + stored));
  }

  // ---------------------------------------------------------------------------
  // Properties of Validate
  // ---------------------------------------------------------------------------

  /**
   * The only error is the store lookup's, and there is no lookup when nothing was kept: with
   * kept records, it fails when the database fails or when a kept id is outside INTEGER.
   */
  lemma ValidateFails(raws: seq<RawPriceRecord>, totalCount: int, table: seq<Price>, lookupFails: bool)
    ensures var s := Phase1(raws);
            ValidateSpec(raws, totalCount, table, lookupFails).Err? <==>
              s.candidates != [] && (lookupFails || exists p :: p in s.candidates && !IsInt32(p.id))
  {
    IdsInOrderInt32(Phase1(raws).candidates);
  }

  /** One well-formed record whose id INTEGER cannot hold makes the whole validation fail. */
  lemma WideIdFails(raws: seq<RawPriceRecord>, totalCount: int, table: seq<Price>, lookupFails: bool, p: Price)
    requires p in Typed(raws) && !IsInt32(p.id)
    ensures ValidateSpec(raws, totalCount, table, lookupFails).Err?
  {
    Phase1Keeps(raws);
    var s := Phase1(raws);
    assert p.id in IdsOf(s.candidates);
    var q :| q in s.candidates && q.id == p.id;
    ValidateFails(raws, totalCount, table, lookupFails);
  }

  /**
   * The valid records of a successful validation: distinct ids, none already in the store,
   * each the first well-formed record of its id in the upload; totalCount is passed through.
   */
  lemma ValidRecordsAreNew(raws: seq<RawPriceRecord>, totalCount: int, table: seq<Price>, lookupFails: bool)
    requires ValidateSpec(raws, totalCount, table, lookupFails).Ok?
    ensures var v := ValidateSpec(raws, totalCount, table, lookupFails).value;
            && v.totalCount == totalCount
            && KeyedById(v.validRecords)
            && (forall p :: p in v.validRecords ==> p.id !in IdsOf(table))
            && (forall p :: p in v.validRecords ==> Lookup(Typed(raws), p.id) == Some(p))
  {
    Phase1Keeps(raws);
    var s := Phase1(raws);
    var existing := ExistingIds(table, IdsInOrder(s.candidates), lookupFails).value;
    FreshKeyed(s.candidates, existing);
    FreshMembers(s.candidates, existing);
    forall p | p in Fresh(s.candidates, existing) ensures p.id !in IdsOf(table) && Lookup(Typed(raws), p.id) == Some(p) {
      assert p in s.candidates;
      var k :| 0 <= k < |s.candidates| && s.candidates[k] == p;
      IdsInOrderIndex(s.candidates);
      LookupKeyed(s.candidates, k);
    }
  }

  /** In a table keyed by id, looking up a row's id finds that row. */
  lemma {:induction false} LookupKeyed(rows: seq<Price>, k: nat)
    requires KeyedById(rows) && k < |rows|
    ensures Lookup(rows, rows[k].id) == Some(rows[k])
  {
    if k > 0 {
      assert rows[1..][k - 1] == rows[k];
      LookupKeyed(rows[1..], k - 1);
    }
  }

  /** Phase 1 on a + [raw] + b is phase 1 on b, from the step on raw after a. */
  lemma Phase1Split(a: seq<RawPriceRecord>, raw: RawPriceRecord, b: seq<RawPriceRecord>)
    ensures Phase1(a + [raw] + b) == Run(Step(Phase1(a), TypeRecord(raw)), Classify(b))
    ensures Phase1(a + b) == Run(Phase1(a), Classify(b))
  {
    ClassifyAppend(a + [raw], b);
    ClassifyAppend(a, [raw]);
    ClassifyAppend(a, b);
    assert Classify([raw]) == [TypeRecord(raw)];
    RunAppend(Start, Classify(a) + [TypeRecord(raw)], Classify(b));
    RunAppend(Start, Classify(a), Classify(b));
    assert (Classify(a) + [TypeRecord(raw)])[..|Classify(a)|] == Classify(a);
  }

  /** A record phase 1 skips changes nothing, wherever it stands in the upload. */
  lemma MalformedIgnored(a: seq<RawPriceRecord>, raw: RawPriceRecord, b: seq<RawPriceRecord>,
                         totalCount: int, table: seq<Price>, lookupFails: bool)
    requires TypeRecord(raw).None?
    ensures ValidateSpec(a + [raw] + b, totalCount, table, lookupFails) == ValidateSpec(a + b, totalCount, table, lookupFails)
  {
    Phase1Split(a, raw, b);
    assert Phase1(a + [raw] + b) == Phase1(a + b);
  }

  /**
   * A well-formed record whose id an earlier record already claimed adds exactly one
   * duplicate and leaves the valid records as they were.
   */
  lemma RepeatCounted(a: seq<RawPriceRecord>, raw: RawPriceRecord, b: seq<RawPriceRecord>,
                      totalCount: int, table: seq<Price>, lookupFails: bool)
    requires TypeRecord(raw).Some? && TypeRecord(raw).value.id in IdsOf(Typed(a))
    ensures var with, without := ValidateSpec(a + [raw] + b, totalCount, table, lookupFails),
                                 ValidateSpec(a + b, totalCount, table, lookupFails);
            && with.Ok? == without.Ok?
            && (with.Ok? ==>
                  with.value.validRecords == without.value.validRecords
                  && with.value.duplicatesCount == without.value.duplicatesCount + 1)
  {
    RunKeyed(Classify(a));
    Phase1Split(a, raw, b);
    var s := Phase1(a);
    StepOnRepeat(s, TypeRecord(raw));
    RunShiftsDuplicates(s, 1, Classify(b));
    var t := Phase1(a + b);
    assert Phase1(a + [raw] + b) == t.(duplicates := t.duplicates + 1);
    Phase2ShiftsDuplicates(t, totalCount, table, lookupFails);
  }


  lemma Phase2ShiftsDuplicates(s: Scan, totalCount: int, table: seq<Price>, lookupFails: bool)
    ensures var with, without := Phase2(s.(duplicates := s.duplicates + 1), totalCount, table, lookupFails),
                                 Phase2(s, totalCount, table, lookupFails);
            && with.Ok? == without.Ok?
            && (with.Ok? ==>
                  with.value.validRecords == without.value.validRecords
                  && with.value.duplicatesCount == without.value.duplicatesCount + 1)
  {
  }

  /**
   * A kept record whose id is in the store is counted as a duplicate and not returned: each
   * such record adds exactly one to the in-file duplicates, so the count exceeds them.
   */
  lemma StoreDuplicateCounted(raws: seq<RawPriceRecord>, totalCount: int, table: seq<Price>, lookupFails: bool, p: Price)
    requires ValidateSpec(raws, totalCount, table, lookupFails).Ok?
    requires p in Phase1(raws).candidates && p.id in IdsOf(table)
    ensures var v := ValidateSpec(raws, totalCount, table, lookupFails).value;
            && p !in v.validRecords && v.duplicatesCount >= Phase1(raws).duplicates + 1
            && v.duplicatesCount == Phase1(raws).duplicates + |StoredCandidates(Phase1(raws).candidates, table)|
  {
    var s := Phase1(raws);
    var existing := ExistingIds(table, IdsInOrder(s.candidates), lookupFails).value;
    Phase2Found(s, totalCount, table, lookupFails, existing);
    var k :| 0 <= k < |s.candidates| && s.candidates[k] == p;
    IdsInOrderIndex(s.candidates);
    FreshMembers(s.candidates, existing);
    StoreDuplicatesPositive(s.candidates, existing, k);
    ExistingIdsAnswer(table, IdsInOrder(s.candidates), lookupFails);
    forall q | q in s.candidates ensures q.id in existing <==> q.id in IdsOf(table) {
      IdsInOrderMembers(s.candidates, q.id);
    }
    assert StoredCandidates(s.candidates, table) == set q | q in s.candidates && q.id in existing;
    StoreDuplicatesCard(s.candidates, existing);
  }

  /** The kept records whose id the table holds. */
  function StoredCandidates(candidates: seq<Price>, table: seq<Price>): set<Price> {
    set q | q in candidates && q.id in IdsOf(table)
  }

  /** With distinct ids, the store duplicates are exactly the kept records whose id is stored. */
  lemma {:induction false} StoreDuplicatesCard(candidates: seq<Price>, existing: set<int>)
    requires KeyedById(candidates)
    ensures StoreDuplicates(candidates, existing) == |set q | q in candidates && q.id in existing|
  {
    if candidates != [] {
      var init, p := candidates[..|candidates| - 1], candidates[|candidates| - 1];
      assert KeyedById(init);
      StoreDuplicatesCard(init, existing);
      var before := set q | q in init && q.id in existing;
      assert p !in init by {
        forall i | 0 <= i < |init| ensures init[i] != p {
          assert candidates[i].id != candidates[|candidates| - 1].id;
        }
      }
      assert forall q :: q in candidates <==> q in init || q == p by {
        assert candidates == init + [p];
      }
      if p.id in existing {
        assert (set q | q in candidates && q.id in existing) == before + {p};
      } else {
        assert (set q | q in candidates && q.id in existing) == before;
      }
    }
  }

  lemma {:induction false} StoreDuplicatesPositive(candidates: seq<Price>, existing: set<int>, k: nat)
    requires k < |candidates| && candidates[k].id in existing
    ensures StoreDuplicates(candidates, existing) >= 1
  {
    if k < |candidates| - 1 {
      StoreDuplicatesPositive(candidates[..|candidates| - 1], existing, k);
    }
  }

  // ---------------------------------------------------------------------------
  // Round trip through Generate
  // ---------------------------------------------------------------------------

  /**
   * A record that Generate writes in a form Validate reads back unchanged: an id in the range of
   * int, a name and a category that are non-blank, trimmed and free of carriage returns, a
   * non-negative price in whole cents within the range of float64, and a calendar date with a
   * four-digit year.
   */
  predicate Exportable(p: Price) {
    && MinInt64 <= p.id <= MaxInt64
    && p.name != [] && TrimSpace(p.name) == p.name
    && p.category != [] && TrimSpace(p.category) == p.category
    && WritesVerbatim(p)
    && p.price >= 0.0 && (p.price * 100.0).Floor as real == p.price * 100.0 && p.price < FloatOverflow
    && ValidDate(p.createDate) && 0 <= p.createDate.year <= 9999
  }

  /** Every field Generate writes for an exportable record is read back as that field. */
  lemma TypeFormatted(p: Price, line: int)
    requires Exportable(p)
    ensures TypeRecord(ToRaw(FormatRecord(p), line)) == Some(p)
  {
    IdFieldOf(p);
    PriceFieldOf(p);
    DateFieldOf(p);
    TypeRecordOf(ToRaw(FormatRecord(p), line), p);
  }

  /** The id column of an exportable record reads back as its id. */
  lemma IdFieldOf(p: Price)
    requires Exportable(p)
    ensures Atoi(TrimSpace(Itoa(p.id))) == Some(p.id)
  {
    ItoaReadBack(p.id);
  }

  /** The price column of an exportable record reads back as its price. */
  lemma PriceFieldOf(p: Price)
    requires Exportable(p)
    ensures ParseDecimal(TrimSpace(FormatPrice(p.price))) == Some(p.price)
  {
    PriceFieldReadBack(p.price);
  }

  /** The create_date column of an exportable record reads back as its date. */
  lemma DateFieldOf(p: Price)
    requires Exportable(p)
    ensures ParseDate(TrimSpace(FormatDate(p.createDate))) == Some(p.createDate)
  {
    FormatDateReadBack(p.createDate);
  }

  /** The price column of a non-negative amount of whole cents within float64 reads back. */
  lemma PriceFieldReadBack(price: real)
    requires price >= 0.0 && (price * 100.0).Floor as real == price * 100.0 && price < FloatOverflow
    ensures FormatPrice(price) != [] && ParseDecimal(TrimSpace(FormatPrice(price))) == Some(price)
  {
    var cents: nat := (price * 100.0).Floor;
    assert price == cents as real / 100.0;
    FormatPriceReadBack(cents);
  }

  /** A raw record whose fields each read back as those of p is typed as p. */
  lemma TypeRecordOf(raw: RawPriceRecord, p: Price)
    requires p.name != [] && p.category != [] && p.price >= 0.0
    requires Atoi(TrimSpace(raw.id)) == Some(p.id)
    requires TrimSpace(raw.name) == p.name && TrimSpace(raw.category) == p.category
    requires ParseDecimal(TrimSpace(raw.price)) == Some(p.price)
    requires ParseDate(TrimSpace(raw.createDate)) == Some(p.createDate)
    ensures TypeRecord(raw) == Some(p)
  {
  }

  /** When every value is present, the present values are all of them, in order. */
  lemma {:induction false} SomesAll(os: seq<Option<Price>>, prices: seq<Price>)
    requires |os| == |prices|
    requires forall i :: 0 <= i < |os| ==> os[i] == Some(prices[i])
    ensures Somes(os) == prices
  {
    if os != [] {
      var n := |os| - 1;
      SomesAll(os[..n], prices[..n]);
      assert prices == prices[..n] + [prices[n]];
    }
  }

  /** Phase 1 on records with pairwise distinct ids keeps them all and counts no duplicate. */
  lemma {:induction false} RunDistinct(os: seq<Option<Price>>)
    requires KeyedById(Somes(os))
    ensures Run(Start, os) == Scan(IdsOf(Somes(os)), Somes(os), 0)
  {
    if os != [] {
      var init := os[..|os| - 1];
      var before := Somes(init);
      if os[|os| - 1].Some? {
        var p := os[|os| - 1].value;
        assert Somes(os) == before + [p];
        assert forall i, j :: 0 <= i < j < |before| ==> before[i] == Somes(os)[i] && before[j] == Somes(os)[j];
        RunDistinct(init);
        forall q | q in before ensures q.id != p.id {
          var i :| 0 <= i < |before| && before[i] == q;
          assert Somes(os)[i] == q && Somes(os)[|before|] == p;
        }
        IdsOfAppend(before, p);
      } else {
        RunDistinct(init);
      }
    }
  }

  /** One row Generate writes for an exportable record, read back, is typed as that record. */
  lemma RowFormatted(p: Price, raw: RawPriceRecord, line: int)
    requires Exportable(p) && raw == ToRaw(ReadRow(FormatRecord(p)), line)
    ensures TypeRecord(raw) == Some(p)
  {
    ReadRowFormatted(p);
    TypeFormatted(p, line);
  }

  /** The rows Generate writes for exportable records are typed back as those records. */
  lemma ClassifyFormatted(raws: seq<RawPriceRecord>, prices: seq<Price>)
    requires |raws| == |prices| && forall p :: p in prices ==> Exportable(p)
    requires forall k :: 0 <= k < |prices| ==> raws[k] == ToRaw(ReadRow(FormatRecord(prices[k])), k + 2)
    ensures Typed(raws) == prices
  {
    var os := Classify(raws);
    forall i | 0 <= i < |raws| ensures os[i] == Some(prices[i]) {
      assert prices[i] in prices;
      RowFormatted(prices[i], raws[i], i + 2);
    }
    SomesAll(os, prices);
  }

  /**
   * Generate, then Parse under the default reader, then phase 1 of Validate: records with
   * distinct ids that Generate can write faithfully come back all of them, in order, with their
   * line numbers 2, 3, ..., and without a single duplicate.
   */
  lemma ReadBackGenerated(prices: seq<Price>)
    requires KeyedById(prices) && forall p :: p in prices ==> Exportable(p)
    ensures ParseReads(DefaultReader(ReadBack(CsvRows(prices)))).Ok?
    ensures var (raws, count) := ParseReads(DefaultReader(ReadBack(CsvRows(prices)))).value;
            && count == |prices|
            && Typed(raws) == prices
            && Phase1(raws) == Scan(IdsOf(prices), prices, 0)
  {
    ParseGenerated(prices);
    var raws := ParseReads(DefaultReader(ReadBack(CsvRows(prices)))).value.0;
    ClassifyFormatted(raws, prices);
    RunDistinct(Classify(raws));
  }
}
