/**
 * The validation layer `VehicleDefault` over the `VehicleMap` store: it
 * converts transport documents to vehicles, checks completeness and
 * uniqueness before inserting, checks the new speed before an update,
 * parses the year filter, and turns empty filter results into "not found"
 * errors.
 */
module Service {
  import opened Wrappers
  import opened Models
  import opened Errors
  import Text
  import Repository

  type Store = Repository.Store
  type Reply<T> = Repository.Reply<T>
  type Answer<T> = Repository.Answer<T>
  type Effect = Repository.Effect

  /** `mapDocToVehicle`: the flat document's fields moved into the nested record. */
  function MapDocToVehicle(doc: VehicleDoc): (v: Vehicle)
    ensures VehicleToDoc(v) == doc
    ensures v.id == doc.id
  {
    Vehicle(doc.id, VehicleAttributes(
      doc.brand, doc.model, doc.registration, doc.color, doc.fabricationYear,
      doc.capacity, doc.maxSpeed, doc.fuelType, doc.transmission, doc.weight,
      Dimensions(doc.height, doc.length, doc.width)))
  }

  /** `FindAll`: the repository's copy of the whole store. */
  method FindAll(db: Store) returns (v: Store, err: Option<Error>)
    ensures v == db && err.None?
  {
    v, err := Repository.FindAll(db);
  }

  /** The conversion loses nothing in either direction. */
  lemma DocConversionRoundTrip(v: Vehicle, doc: VehicleDoc)
    ensures MapDocToVehicle(VehicleToDoc(v)) == v
    ensures VehicleToDoc(MapDocToVehicle(doc)) == doc
    ensures MapDocToVehicle(doc) == v <==> VehicleToDoc(v) == doc
  {
  }

  /**
   * `AddVehicle`: an incomplete document is refused before the store is
   * consulted, a known id is refused next, and otherwise the converted
   * vehicle is stored under its id. Any refusal leaves the store as it was.
   */
  function AddVehicle(db: Store, doc: VehicleDoc): (r: Reply<Vehicle>)
    ensures var v := MapDocToVehicle(doc);
            !Repository.AreMandatoryFieldsOK(v) ==> r == Repository.Reply(ZeroVehicle, Some(IncompleteFields), db)
    ensures var v := MapDocToVehicle(doc);
            Repository.AreMandatoryFieldsOK(v) && doc.id in db ==> r == Repository.Reply(ZeroVehicle, Some(DuplicateId), db)
    ensures r.err.None? <==> Repository.AreMandatoryFieldsOK(MapDocToVehicle(doc)) && doc.id !in db
    ensures r.err.None? ==> r.value == MapDocToVehicle(doc) && r.db == db[doc.id := MapDocToVehicle(doc)]
  {
    var v := MapDocToVehicle(doc);
    if !Repository.AreMandatoryFieldsOK(v) then Repository.Reply(ZeroVehicle, Some(IncompleteFields), db)
    else if Repository.GetVehicleById(db, v.id).err.Some? then
      var added := Repository.AddVehicle(db, v);
      if added.err.Some? then Repository.Reply(ZeroVehicle, added.err, added.db)
      else Repository.Reply(v, None, added.db)
    else Repository.Reply(ZeroVehicle, Some(DuplicateId), db)
  }

  /**
   * `FindVehiclesByColorAndYear`: an unparsable year is reported with the
   * parser's error, an empty match with "no vehicles found"; both come with
   * an empty map. Otherwise the matching sub-map is returned as is.
   */
  method FindVehiclesByColorAndYear(db: Store, color: string, year: string) returns (vehicles: Store, err: Option<Error>)
    ensures Text.Atoi(year).Err? ==>
              vehicles == map[] && err == Some(ParseFailure(year, Text.Atoi(year).error))
    ensures Text.Atoi(year).Ok? ==>
              var y: Int64 := Text.Atoi(year).value;
              var matches := Repository.ByColorAndYear(db, color, y);
              if |matches| == 0 then vehicles == map[] && err == Some(NoMatchingVehicles)
              else vehicles == matches && err.None?
  {
    match Text.Atoi(year)
    case Err(kind) =>
      return map[], Some(ParseFailure(year, kind));
    case Ok(n) =>
      var yearParsed: Int64 := n;
      vehicles := Repository.FindVehiclesByColorAndYear(db, color, yearParsed);
      if |vehicles| == 0 {
        return map[], Some(NoMatchingVehicles);
      }
      return vehicles, None;
  }

  /** `FindVehiclesByBrandAndRangeYears`: the brand and inclusive year-range sub-map; empty means "no vehicles found". */
  function FindVehiclesByBrandAndRangeYears(db: Store, brand: string, startYear: Int64, endYear: Int64): (r: Answer<Store>)
    ensures r.err.None? <==> exists k :: k in db && Repository.MatchesBrandAndYears(db[k], brand, startYear, endYear)
    ensures r.err.Some? ==> r == Repository.Answer(map[], Some(NoMatchingVehicles))
    ensures r.err.None? ==>
              (forall k :: k in r.value <==> k in db && Repository.MatchesBrandAndYears(db[k], brand, startYear, endYear)) &&
              (forall k :: k in r.value ==> r.value[k] == db[k])
  {
    var found := Repository.FindVehiclesByBrandAndRangeYears(db, brand, startYear, endYear);
    if found.err.Some? then Repository.Answer(map[], found.err)
    else if |found.value| == 0 then Repository.Answer(found.value, Some(NoMatchingVehicles))
    else Repository.Answer(found.value, None)
  }

  /** `UpdateMaxSpeed`: a non-positive speed is refused first, then an unknown id; otherwise only that speed changes. */
  function UpdateMaxSpeed(db: Store, id: Int64, newSpeed: real): (r: Effect)
    ensures newSpeed <= 0.0 ==> r == Repository.Effect(Some(SpeedOutOfRange), db)
    ensures newSpeed > 0.0 && id !in db ==> r == Repository.Effect(Some(VehicleNotFound), db)
    ensures r.err.None? <==> newSpeed > 0.0 && id in db
    ensures r.err.None? ==> r.db == db[id := WithMaxSpeed(db[id], newSpeed)]
  {
    if newSpeed <= 0.0 then Repository.Effect(Some(SpeedOutOfRange), db)
    else if Repository.GetVehicleById(db, id).err.Some? then Repository.Effect(Repository.GetVehicleById(db, id).err, db)
    else
      var updated := Repository.UpdateMaxSpeed(db, id, newSpeed);
      if updated.err.Some? then Repository.Effect(updated.err, updated.db)
      else Repository.Effect(None, updated.db)
  }

  /** `GetVehicleById`: the repository's answer, with the zero vehicle on error. */
  function GetVehicleById(db: Store, id: Int64): (r: Answer<Vehicle>)
    ensures r.err.None? <==> id in db
    ensures id in db ==> r.value == db[id]
    ensures id !in db ==> r == Repository.Answer(ZeroVehicle, Some(VehicleNotFound))
  {
    var found := Repository.GetVehicleById(db, id);
    if found.err.Some? then Repository.Answer(ZeroVehicle, found.err) else Repository.Answer(found.value, None)
  }

  /** `FindVehiclesByFuel`: the fuel sub-map; empty means the fuel-specific "not found". */
  function FindVehiclesByFuel(db: Store, fuel: string): (r: Answer<Store>)
    ensures r.err.None? <==> exists k :: k in db && Text.SameIgnoringCase(db[k].attributes.fuelType, fuel)
    ensures r.err.Some? ==> r == Repository.Answer(map[], Some(NoFuelMatches))
    ensures r.err.None? ==> r.value == Repository.FindVehiclesByFuel(db, fuel)
  {
    var v := Repository.FindVehiclesByFuel(db, fuel);
    if |v| == 0 then Repository.Answer(map[], Some(NoFuelMatches)) else Repository.Answer(v, None)
  }

  /** `DeleteVehicle`: an unknown id is "Vehicle not found" and changes nothing; a known one is removed. */
  function DeleteVehicle(db: Store, id: Int64): (r: Effect)
    ensures r.err.None? <==> id in db
    ensures id !in db ==> r == Repository.Effect(Some(VehicleNotFound), db)
    ensures id in db ==> r.db.Keys == db.Keys - {id} && forall k :: k in r.db ==> r.db[k] == db[k]
  {
    var found := Repository.GetVehicleById(db, id);
    if found.err.Some? then Repository.Effect(found.err, db)
    else
      var deleted := Repository.DeleteVehicle(db, id);
      if deleted.err.Some? then Repository.Effect(deleted.err, deleted.db)
      else Repository.Effect(None, deleted.db)
  }

  /** `FindVehiclesByTransmission`: the transmission sub-map; empty means the transmission-specific "not found". */
  function FindVehiclesByTransmission(db: Store, transmission: string): (r: Answer<Store>)
    ensures r.err.None? <==> exists k :: k in db && Text.SameIgnoringCase(db[k].attributes.transmission, transmission)
    ensures r.err.Some? ==> r == Repository.Answer(map[], Some(NoTransmissionMatches))
    ensures r.err.None? ==> r.value == Repository.FindVehiclesByTransmission(db, transmission)
  {
    var v := Repository.FindVehiclesByTransmission(db, transmission);
    if |v| == 0 then Repository.Answer(v, Some(NoTransmissionMatches)) else Repository.Answer(v, None)
  }

  // ---------------------------------------------------------------------
  // Batch insert
  // ---------------------------------------------------------------------

  /**
   * `AddMultipleVehicles`: the documents are taken in order and each one
   * that passes both checks is stored at once; the first refusal ends the
   * batch, leaving the earlier ones stored. Stored entries are never
   * overwritten and nothing is removed.
   */
  function AddMultipleVehicles(db: Store, docs: seq<VehicleDoc>): (r: Effect)
    ensures db.Keys <= r.db.Keys
    ensures forall k :: k in db ==> r.db[k] == db[k]
    ensures r.err.None? || r.err == Some(BatchIncomplete) || r.err == Some(BatchDuplicateId)
    decreases |docs|
  {
    if docs == [] then Repository.Effect(None, db)
    else
      var v := MapDocToVehicle(docs[0]);
      if !Repository.AreMandatoryFieldsOK(v) then Repository.Effect(Some(BatchIncomplete), db)
      else if Repository.GetVehicleById(db, v.id).err.None? then Repository.Effect(Some(BatchDuplicateId), db)
      else
        var added := Repository.AddVehicle(db, v);
        if added.err.Some? then Repository.Effect(added.err, added.db)
        else AddMultipleVehicles(added.db, docs[1..])
  }

  /** The ids a batch carries. */
  function Ids(docs: seq<VehicleDoc>): set<Int64> {
    set d | d in docs :: d.id
  }

  /** Reference meaning of committing a batch with no checks: each document stored in order. */
  function CommitAll(db: Store, docs: seq<VehicleDoc>): (r: Store)
    ensures r.Keys == db.Keys + Ids(docs)
    ensures forall k :: k in db && k !in Ids(docs) ==> r[k] == db[k]
    decreases |docs|
  {
    if docs == [] then db
    else
      assert Ids(docs) == {docs[0].id} + Ids(docs[1..]) by {
        assert docs == [docs[0]] + docs[1..];
      }
      CommitAll(db[docs[0].id := MapDocToVehicle(docs[0])], docs[1..])
  }

  /** Document `i` passes both checks when the documents before it have been stored. */
  predicate Passes(db: Store, docs: seq<VehicleDoc>, i: nat)
    requires i < |docs|
  {
    Repository.AreMandatoryFieldsOK(MapDocToVehicle(docs[i])) &&
    docs[i].id !in db &&
    forall j :: 0 <= j < i ==> docs[j].id != docs[i].id
  }

  /** Every document of the batch is complete, new to the store and new to the batch. */
  predicate Admissible(db: Store, docs: seq<VehicleDoc>) {
    forall i :: 0 <= i < |docs| ==> Passes(db, docs, i)
  }

  /** The batch refuses `doc` when it is incomplete or its id is already in the store `s` it meets. */
  predicate Refused(s: Store, doc: VehicleDoc) {
    !Repository.AreMandatoryFieldsOK(MapDocToVehicle(doc)) || doc.id in s
  }

  /** The error a refused document produces: incompleteness is checked first. */
  function RefusalError(doc: VehicleDoc): Error {
    if !Repository.AreMandatoryFieldsOK(MapDocToVehicle(doc)) then BatchIncomplete else BatchDuplicateId
  }

  /** A batch headed by a passing document is admissible exactly when its tail is, against the grown store. */
  lemma AdmissibleCons(db: Store, docs: seq<VehicleDoc>)
    requires |docs| > 0 && Passes(db, docs, 0)
    ensures Admissible(db, docs) <==> Admissible(db[docs[0].id := MapDocToVehicle(docs[0])], docs[1..])
  {
    var db1 := db[docs[0].id := MapDocToVehicle(docs[0])];
    var rest := docs[1..];
    if Admissible(db, docs) {
      forall i | 0 <= i < |rest|
        ensures Passes(db1, rest, i)
      {
        assert rest[i] == docs[i + 1];
        assert Passes(db, docs, i + 1);
        forall j | 0 <= j < i
          ensures rest[j].id != rest[i].id
        {
          assert rest[j] == docs[j + 1];
        }
      }
    }
    if Admissible(db1, rest) {
      forall i | 0 <= i < |docs|
        ensures Passes(db, docs, i)
      {
        if i > 0 {
          assert docs[i] == rest[i - 1];
          assert Passes(db1, rest, i - 1);
          forall j | 0 <= j < i
            ensures docs[j].id != docs[i].id
          {
            if j > 0 {
              assert docs[j] == rest[j - 1];
            }
          }
        }
      }
    }
  }

  /** A passing first document is stored and the batch goes on with the rest. */
  lemma BatchStep(db: Store, docs: seq<VehicleDoc>)
    requires |docs| > 0 && Passes(db, docs, 0)
    ensures AddMultipleVehicles(db, docs) ==
            AddMultipleVehicles(db[docs[0].id := MapDocToVehicle(docs[0])], docs[1..])
  {
  }

  /** The batch succeeds exactly when it is admissible, and then every document is stored. */
  lemma {:induction false} BatchSucceedsIffAdmissible(db: Store, docs: seq<VehicleDoc>)
    ensures AddMultipleVehicles(db, docs).err.None? <==> Admissible(db, docs)
    ensures AddMultipleVehicles(db, docs).err.None? ==> AddMultipleVehicles(db, docs).db == CommitAll(db, docs)
    decreases |docs|
  {
    if docs != [] {
      if !Passes(db, docs, 0) {
        assert !Admissible(db, docs);
      } else {
        BatchStep(db, docs);
        AdmissibleCons(db, docs);
        BatchSucceedsIffAdmissible(db[docs[0].id := MapDocToVehicle(docs[0])], docs[1..]);
      }
    }
  }

  /**
   * Once an admissible run `pre` has been stored, a refused document `d`
   * ends the batch: the result is d's error, and the store holds exactly
   * the old entries plus `pre`, whatever follows in `post`.
   */
  lemma {:induction false} BatchStopsAtRefusal(db: Store, pre: seq<VehicleDoc>, d: VehicleDoc, post: seq<VehicleDoc>)
    requires Admissible(db, pre) && Refused(CommitAll(db, pre), d)
    ensures AddMultipleVehicles(db, pre + [d] + post) == Repository.Effect(Some(RefusalError(d)), CommitAll(db, pre))
    decreases |pre|
  {
    var docs := pre + [d] + post;
    if pre == [] {
      assert docs[0] == d;
    } else {
      var db1 := db[pre[0].id := MapDocToVehicle(pre[0])];
      assert Passes(db, pre, 0);
      AdmissibleCons(db, pre);
      assert docs[0] == pre[0] && docs[1..] == pre[1..] + [d] + post;
      assert Passes(db, docs, 0);
      BatchStep(db, docs);
      BatchStopsAtRefusal(db1, pre[1..], d, post);
    }
  }

  /** A batch that is not admissible has a first refused document, after an admissible prefix. */
  lemma {:induction false} FirstRefusal(db: Store, docs: seq<VehicleDoc>) returns (k: nat)
    requires !Admissible(db, docs)
    ensures k < |docs| && Admissible(db, docs[..k]) && Refused(CommitAll(db, docs[..k]), docs[k])
  {
    k := 0;
    while Passes(db, docs, k)
      invariant k < |docs|
      invariant forall m :: 0 <= m < k ==> Passes(db, docs, m)
      decreases |docs| - k
    {
      k := k + 1;
    }
    forall m | 0 <= m < k
      ensures Passes(db, docs[..k], m)
    {
      assert Passes(db, docs, m);
      assert docs[..k][m] == docs[m];
      forall j | 0 <= j < m
        ensures docs[..k][j].id != docs[..k][m].id
      {
        assert docs[..k][j] == docs[j];
      }
    }
    if Repository.AreMandatoryFieldsOK(MapDocToVehicle(docs[k])) && docs[k].id !in db {
      var j :| 0 <= j < k && docs[j].id == docs[k].id;
      assert docs[..k][j] == docs[j];
      assert docs[k].id in Ids(docs[..k]);
    }
  }

  /**
   * A failed batch leaves behind exactly a committed prefix: for the
   * returned k, the first k documents were admissible and are stored, and
   * document k is the refused one, with the error its refusal names.
   */
  lemma {:induction false} BatchCommitsPrefix(db: Store, docs: seq<VehicleDoc>) returns (k: nat)
    requires AddMultipleVehicles(db, docs).err.Some?
    ensures k < |docs| && Admissible(db, docs[..k]) && Refused(CommitAll(db, docs[..k]), docs[k])
    ensures AddMultipleVehicles(db, docs) == Repository.Effect(Some(RefusalError(docs[k])), CommitAll(db, docs[..k]))
  {
    BatchSucceedsIffAdmissible(db, docs);
    k := FirstRefusal(db, docs);
    BatchStopsAtFirstRefusal(db, docs, k);
  }

  /** `BatchStopsAtRefusal` for a batch cut at position k. */
  lemma {:induction false} BatchStopsAtFirstRefusal(db: Store, docs: seq<VehicleDoc>, k: nat)
    requires k < |docs| && Admissible(db, docs[..k]) && Refused(CommitAll(db, docs[..k]), docs[k])
    ensures AddMultipleVehicles(db, docs) == Repository.Effect(Some(RefusalError(docs[k])), CommitAll(db, docs[..k]))
  {
    assert docs == docs[..k] + [docs[k]] + docs[k + 1..];
    BatchStopsAtRefusal(db, docs[..k], docs[k], docs[k + 1..]);
  }

  /** In an admissible batch every document ends up stored under its id. */
  lemma {:induction false} CommitAllStoresEach(db: Store, docs: seq<VehicleDoc>, i: nat)
    requires Admissible(db, docs) && i < |docs|
    ensures CommitAll(db, docs)[docs[i].id] == MapDocToVehicle(docs[i])
    decreases |docs|
  {
    var db1 := db[docs[0].id := MapDocToVehicle(docs[0])];
    var rest := docs[1..];
    assert Passes(db, docs, 0);
    AdmissibleCons(db, docs);
    assert CommitAll(db, docs) == CommitAll(db1, rest);
    if i == 0 {
      assert docs[0].id !in Ids(rest) by {
        forall j | 0 <= j < |rest|
          ensures rest[j].id != docs[0].id
        {
          assert rest[j] == docs[j + 1];
          assert Passes(db, docs, j + 1);
        }
      }
    } else {
      assert docs[i] == rest[i - 1];
      CommitAllStoresEach(db1, rest, i - 1);
    }
  }

  /**
   * An id repeated inside one batch is refused at its second occurrence:
   * when everything before that occurrence passes, the batch stops there
   * with the duplicate-id error, the earlier documents stay stored, and the
   * first vehicle with that id is the one kept.
   */
  lemma {:induction false} BatchRepeatedIdFailsAtSecondOccurrence(db: Store, docs: seq<VehicleDoc>, i: nat, j: nat)
    requires i < j < |docs| && docs[i].id == docs[j].id
    requires Admissible(db, docs[..j])
    requires Repository.AreMandatoryFieldsOK(MapDocToVehicle(docs[j]))
    ensures AddMultipleVehicles(db, docs) == Repository.Effect(Some(BatchDuplicateId), CommitAll(db, docs[..j]))
    ensures CommitAll(db, docs[..j])[docs[i].id] == MapDocToVehicle(docs[i])
  {
    assert docs[..j][i] == docs[i];
    assert docs[i].id in Ids(docs[..j]);
    assert docs == docs[..j] + [docs[j]] + docs[j + 1..];
    BatchStopsAtRefusal(db, docs[..j], docs[j], docs[j + 1..]);
    CommitAllStoresEach(db, docs[..j], i);
  }

  // ---------------------------------------------------------------------
  // The store invariant: every vehicle is filed under its own id
  // ---------------------------------------------------------------------

  /** Committing documents one after another: the last one goes on top. */
  lemma {:induction false} CommitAllSnoc(db: Store, pre: seq<VehicleDoc>, d: VehicleDoc)
    ensures CommitAll(db, pre + [d]) == CommitAll(db, pre)[d.id := MapDocToVehicle(d)]
    decreases |pre|
  {
    if pre == [] {
      assert pre + [d] == [d];
      assert [d][1..] == [];
    } else {
      assert (pre + [d])[0] == pre[0];
      assert (pre + [d])[1..] == pre[1..] + [d];
      CommitAllSnoc(db[pre[0].id := MapDocToVehicle(pre[0])], pre[1..], d);
    }
  }

  /** Filing documents by their own ids keeps the store keyed by id. */
  lemma {:induction false} CommitAllKeepsKeyedById(db: Store, docs: seq<VehicleDoc>)
    requires Repository.KeyedById(db)
    ensures Repository.KeyedById(CommitAll(db, docs))
    decreases |docs|
  {
    if docs != [] {
      CommitAllKeepsKeyedById(db[docs[0].id := MapDocToVehicle(docs[0])], docs[1..]);
    }
  }

  /**
   * The loader's map-building step: each decoded document is filed under
   * its id, a later document replacing an earlier one with the same id.
   * The store it hands to `NewVehicleMap` is keyed by id.
   */
  method LoadVehicles(docs: seq<VehicleDoc>) returns (db: Store)
    ensures db == CommitAll(map[], docs)
    ensures db.Keys == Ids(docs)
    ensures Repository.KeyedById(db)
  {
    db := map[];
    for i := 0 to |docs|
      invariant db == CommitAll(map[], docs[..i])
    {
      CommitAllSnoc(map[], docs[..i], docs[i]);
      assert docs[..i + 1] == docs[..i] + [docs[i]];
      db := db[docs[i].id := MapDocToVehicle(docs[i])];
    }
    assert docs[..|docs|] == docs;
    CommitAllKeepsKeyedById(map[], docs);
  }

  /** A single insert keeps the store keyed by id. */
  lemma AddVehicleKeepsKeyedById(db: Store, doc: VehicleDoc)
    requires Repository.KeyedById(db)
    ensures Repository.KeyedById(AddVehicle(db, doc).db)
  {
  }

  /** A batch insert keeps the store keyed by id, whether it completes or stops early. */
  lemma {:induction false} AddMultipleVehiclesKeepsKeyedById(db: Store, docs: seq<VehicleDoc>)
    requires Repository.KeyedById(db)
    ensures Repository.KeyedById(AddMultipleVehicles(db, docs).db)
    decreases |docs|
  {
    if docs != [] {
      var v := MapDocToVehicle(docs[0]);
      if Repository.AreMandatoryFieldsOK(v) && v.id !in db {
        AddMultipleVehiclesKeepsKeyedById(db[v.id := v], docs[1..]);
      }
    }
  }

  /** A speed update keeps the store keyed by id. */
  lemma UpdateMaxSpeedKeepsKeyedById(db: Store, id: Int64, newSpeed: real)
    requires Repository.KeyedById(db)
    ensures Repository.KeyedById(UpdateMaxSpeed(db, id, newSpeed).db)
  {
  }

  /** A delete keeps the store keyed by id. */
  lemma DeleteVehicleKeepsKeyedById(db: Store, id: Int64)
    requires Repository.KeyedById(db)
    ensures Repository.KeyedById(DeleteVehicle(db, id).db)
  {
  }

  // ---------------------------------------------------------------------
  // Properties that relate several operations
  // ---------------------------------------------------------------------

  /** A stored vehicle reads back unchanged. */
  lemma AddThenGet(db: Store, doc: VehicleDoc)
    requires AddVehicle(db, doc).err.None?
    ensures GetVehicleById(AddVehicle(db, doc).db, doc.id) == Repository.Answer(MapDocToVehicle(doc), None)
  {
  }

  /** A second insert under a used id is refused and the first vehicle stays. */
  lemma SecondAddWithSameIdFails(db: Store, first: VehicleDoc, second: VehicleDoc)
    requires AddVehicle(db, first).err.None?
    requires second.id == first.id && Repository.AreMandatoryFieldsOK(MapDocToVehicle(second))
    ensures var db1 := AddVehicle(db, first).db;
            AddVehicle(db1, second) == Repository.Reply(ZeroVehicle, Some(DuplicateId), db1) &&
            db1[first.id] == MapDocToVehicle(first)
  {
  }

  /** Inserts under distinct fresh ids both succeed and both vehicles are kept. */
  lemma DistinctAddsCoexist(db: Store, a: VehicleDoc, b: VehicleDoc)
    requires AddVehicle(db, a).err.None? && AddVehicle(db, b).err.None? && a.id != b.id
    ensures var db1 := AddVehicle(db, a).db;
            var r := AddVehicle(db1, b);
            r.err.None? &&
            GetVehicleById(r.db, a.id).value == MapDocToVehicle(a) &&
            GetVehicleById(r.db, b.id).value == MapDocToVehicle(b)
  {
  }

  /** Any document missing one mandatory field is refused and the store is unchanged. */
  lemma MissingFieldRefused(db: Store, v: Vehicle, f: Field)
    ensures AddVehicle(db, VehicleToDoc(Clear(v, f))) == Repository.Reply(ZeroVehicle, Some(IncompleteFields), db)
  {
    Repository.ClearedFieldIsIncomplete(v, f);
    DocConversionRoundTrip(Clear(v, f), VehicleToDoc(Clear(v, f)));
  }

  /** After a delete the id is no longer found. */
  lemma DeleteThenGet(db: Store, id: Int64)
    requires DeleteVehicle(db, id).err.None?
    ensures GetVehicleById(DeleteVehicle(db, id).db, id) == Repository.Answer(ZeroVehicle, Some(VehicleNotFound))
  {
  }

  /** After a speed update the vehicle differs from before in its speed only. */
  lemma UpdateMaxSpeedThenGet(db: Store, id: Int64, speed: real)
    requires UpdateMaxSpeed(db, id, speed).err.None?
    ensures var after := GetVehicleById(UpdateMaxSpeed(db, id, speed).db, id).value;
            after.attributes.maxSpeed == speed &&
            after.(attributes := after.attributes.(maxSpeed := db[id].attributes.maxSpeed)) == db[id]
  {
  }

  /** The colour filter does not depend on the case of the colour asked for. */
  lemma ColorFilterIgnoresCase(db: Store, color: string, year: Int64)
    ensures Repository.ByColorAndYear(db, Text.ToUpper(color), year) == Repository.ByColorAndYear(db, color, year)
  {
    Text.UpperMatchesLower(color);
  }

  /** A vehicle is found by its fuel type written in capitals ("DIESEL" finds "diesel"). */
  lemma FuelFilterIgnoresCase(db: Store, id: Int64)
    requires id in db
    ensures var r := FindVehiclesByFuel(db, Text.ToUpper(db[id].attributes.fuelType));
            r.err.None? && id in r.value && r.value[id] == db[id]
  {
    Text.UpperMatchesLower(db[id].attributes.fuelType);
  }
}
