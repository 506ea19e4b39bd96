/**
 * The in-memory record store `VehicleMap`: a map from id to vehicle. Every
 * operation is a pure function of the current map; an operation that
 * writes returns the new map alongside its Go results.
 */
module Repository {
  import opened Wrappers
  import opened Models
  import opened Errors
  import Text

  type Store = map<Int64, Vehicle>

  /** Result of a write that also returns a value: Go's `(T, error)` plus the new map. */
  datatype Reply<T> = Reply(value: T, err: Option<Error>, db: Store)

  /** Result of a write that returns only an `error`, plus the new map. */
  datatype Effect = Effect(err: Option<Error>, db: Store)

  /** Result of a read: Go's `(T, error)` pair; on error the value is the zero value of T. */
  datatype Answer<T> = Answer(value: T, err: Option<Error>)

  /** `NewVehicleMap`: a nil map (None) starts an empty store; any other map is adopted as is. */
  function NewVehicleMap(db: Option<Store>): (s: Store)
    ensures db.None? ==> s == map[]
    ensures db.Some? ==> s == db.value
  {
    match db
    case None => map[]
    case Some(m) => m
  }

  /** `FindAll`: copies every entry into a fresh map, key by key; never fails. */
  method FindAll(db: Store) returns (v: Store, err: Option<Error>)
    ensures v == db
    ensures err.None?
  {
    v := map[];
    var pending := db.Keys;
    while pending != {}
      invariant pending <= db.Keys
      invariant v.Keys == db.Keys - pending
      invariant forall k :: k in v ==> v[k] == db[k]
      decreases pending
    {
      var key :| key in pending;
      v := v[key := db[key]];
      pending := pending - {key};
    }
    assert v.Keys == db.Keys;
    err := None;
  }

  /** `areMandatoryFieldsOK`: none of the fourteen fields holds its zero value. */
  predicate AreMandatoryFieldsOK(v: Vehicle) {
    var a := v.attributes;
    v.id != 0 &&
    |a.brand| != 0 &&
    |a.model| != 0 &&
    |a.registration| != 0 &&
    |a.color| != 0 &&
    a.fabricationYear != 0 &&
    a.capacity != 0 &&
    a.maxSpeed != 0.0 &&
    |a.fuelType| != 0 &&
    |a.transmission| != 0 &&
    a.weight != 0.0 &&
    a.dimensions.height != 0.0 &&
    a.dimensions.length != 0.0 &&
    a.dimensions.width != 0.0
  }

  /**
   * The store's invariant: every vehicle is filed under its own id, so no
   * two records share an id.
   */
  predicate KeyedById(db: Store) {
    forall k :: k in db ==> db[k].id == k
  }

  /** The completeness check is exactly "every mandatory field is present". */
  lemma MandatoryFieldsMeanAllPresent(v: Vehicle)
    ensures AreMandatoryFieldsOK(v) <==> forall f :: Present(v, f)
  {
    if forall f :: Present(v, f) {
      assert Present(v, Id) && Present(v, Brand) && Present(v, Model);
      assert Present(v, Registration) && Present(v, Color) && Present(v, FabricationYear);
      assert Present(v, Capacity) && Present(v, MaxSpeed) && Present(v, FuelType);
      assert Present(v, Transmission) && Present(v, Weight) && Present(v, Height);
      assert Present(v, Length) && Present(v, Width);
    }
  }

  /** Zeroing any single mandatory field makes a vehicle incomplete. */
  lemma ClearedFieldIsIncomplete(v: Vehicle, f: Field)
    ensures !AreMandatoryFieldsOK(Clear(v, f))
  {
    MandatoryFieldsMeanAllPresent(Clear(v, f));
  }

  /** `GetVehicleById`: the stored vehicle, or "Vehicle not found" with the zero vehicle. */
  function GetVehicleById(db: Store, id: Int64): (r: Answer<Vehicle>)
    ensures r.err.None? <==> id in db
    ensures id in db ==> r.value == db[id]
    ensures id !in db ==> r == Answer(ZeroVehicle, Some(VehicleNotFound))
  {
    if id in db then Answer(db[id], None) else Answer(ZeroVehicle, Some(VehicleNotFound))
  }

  /**
   * `AddVehicle`: rejects an incomplete vehicle, then a known id; otherwise
   * stores the vehicle under its id. A rejected write leaves the map as it was.
   */
  function AddVehicle(db: Store, v: Vehicle): (r: Reply<Vehicle>)
    ensures !AreMandatoryFieldsOK(v) ==> r == Reply(ZeroVehicle, Some(IncompleteFields), db)
    ensures AreMandatoryFieldsOK(v) && v.id in db ==> r == Reply(ZeroVehicle, Some(DuplicateId), db)
    ensures r.err.None? <==> AreMandatoryFieldsOK(v) && v.id !in db
    ensures r.err.None? ==> r.value == v && r.db == db[v.id := v]
    ensures r.err.None? ==> r.db.Keys == db.Keys + {v.id} && |r.db| == |db| + 1
  {
    if !AreMandatoryFieldsOK(v) then Reply(ZeroVehicle, Some(IncompleteFields), db)
    else if GetVehicleById(db, v.id).err.Some? then Reply(v, None, db[v.id := v])
    else Reply(ZeroVehicle, Some(DuplicateId), db)
  }

  // ---------------------------------------------------------------------
  // Filters: each one is the sub-map of entries whose vehicle satisfies a predicate
  // ---------------------------------------------------------------------

  /** The entries of `db` whose vehicle satisfies `keep`, under their own keys. */
  function Filter(db: Store, keep: Vehicle -> bool): (r: Store)
    ensures forall k :: k in r <==> k in db && keep(db[k])
    ensures forall k :: k in r ==> r[k] == db[k]
  {
    map k | k in db && keep(db[k]) :: db[k]
  }

  predicate MatchesColorAndYear(v: Vehicle, color: string, year: Int64) {
    Text.SameIgnoringCase(v.attributes.color, color) && v.attributes.fabricationYear == year
  }

  /** Reference meaning of the colour+year scan. */
  function ByColorAndYear(db: Store, color: string, year: Int64): Store {
    Filter(db, v => MatchesColorAndYear(v, color, year))
  }

  /**
   * `FindVehiclesByColorAndYear`: one pass over the map copying the
   * entries whose colour equals `color` ignoring case and whose year equals
   * `year`; the stored map is only read.
   */
  method FindVehiclesByColorAndYear(db: Store, color: string, year: Int64) returns (v: Store)
    ensures v == ByColorAndYear(db, color, year)
  {
    v := map[];
    var pending := db.Keys;
    while pending != {}
      invariant pending <= db.Keys
      invariant forall k :: k in v <==> k in db && k !in pending && MatchesColorAndYear(db[k], color, year)
      invariant forall k :: k in v ==> v[k] == db[k]
      decreases pending
    {
      var key :| key in pending;
      var vehicle := db[key];
      if Text.ToLower(vehicle.attributes.color) == Text.ToLower(color) && vehicle.attributes.fabricationYear == year {
        v := v[key := vehicle];
      }
      pending := pending - {key};
    }
  }

  // ---------------------------------------------------------------------
  // Repository operations the service calls whose bodies are not part of
  // this model; each is given an assumed behaviour.
  // ---------------------------------------------------------------------

  predicate MatchesBrandAndYears(v: Vehicle, brand: string, startYear: Int64, endYear: Int64) {
    Text.SameIgnoringCase(v.attributes.brand, brand) &&
    startYear <= v.attributes.fabricationYear <= endYear
  }

  /** Assumed: brand equal ignoring case, year within the inclusive range; never fails. */
  function FindVehiclesByBrandAndRangeYears(db: Store, brand: string, startYear: Int64, endYear: Int64): (r: Answer<Store>)
    ensures r.err.None?
    ensures forall k :: k in r.value <==> k in db && MatchesBrandAndYears(db[k], brand, startYear, endYear)
    ensures forall k :: k in r.value ==> r.value[k] == db[k]
  {
    Answer(Filter(db, v => MatchesBrandAndYears(v, brand, startYear, endYear)), None)
  }

  /** Assumed: fuel type equal ignoring case. */
  function FindVehiclesByFuel(db: Store, fuel: string): (r: Store)
    ensures forall k :: k in r <==> k in db && Text.SameIgnoringCase(db[k].attributes.fuelType, fuel)
    ensures forall k :: k in r ==> r[k] == db[k]
  {
    Filter(db, (v: Vehicle) => Text.SameIgnoringCase(v.attributes.fuelType, fuel))
  }

  /** Assumed: transmission equal ignoring case. */
  function FindVehiclesByTransmission(db: Store, transmission: string): (r: Store)
    ensures forall k :: k in r <==> k in db && Text.SameIgnoringCase(db[k].attributes.transmission, transmission)
    ensures forall k :: k in r ==> r[k] == db[k]
  {
    Filter(db, (v: Vehicle) => Text.SameIgnoringCase(v.attributes.transmission, transmission))
  }

  /** Assumed: overwrite the top speed of a stored vehicle; "Vehicle not found" otherwise. */
  function UpdateMaxSpeed(db: Store, id: Int64, newSpeed: real): (r: Effect)
    ensures r.err.None? <==> id in db
    ensures id in db ==> r.db == db[id := WithMaxSpeed(db[id], newSpeed)]
    ensures id !in db ==> r == Effect(Some(VehicleNotFound), db)
  {
    if id in db then Effect(None, db[id := WithMaxSpeed(db[id], newSpeed)])
    else Effect(Some(VehicleNotFound), db)
  }

  /** Assumed: remove a stored key; "Vehicle not found" otherwise. */
  function DeleteVehicle(db: Store, id: Int64): (r: Effect)
    ensures r.err.None? <==> id in db
    ensures id in db ==> r.db.Keys == db.Keys - {id} && forall k :: k in r.db ==> r.db[k] == db[k]
    ensures id !in db ==> r == Effect(Some(VehicleNotFound), db)
  {
    if id in db then Effect(None, db - {id}) else Effect(Some(VehicleNotFound), db)
  }
}
