# Vehicle catalog: record store and validation layer

A Dafny model of the core of a small vehicle-catalog HTTP service. The model
covers two layers:

- The **record store** `VehicleMap` (`internal/repository/vehicle_map.go`) is an
  in-memory map from integer id to vehicle.
- The **validation layer** `VehicleDefault` (`internal/service/vehicle_default.go`)
  wraps the store. Before each insert, single or batch, it converts transport
  documents to vehicles, checks that all fourteen mandatory fields are present,
  and rejects ids that are already stored. Before a speed update it rejects a
  speed that is not positive. It also parses the year filter and turns empty
  filter results into "not found" errors.

The model is functional. The store is a `map<Int64, Vehicle>`. Each operation
takes the current map and returns Go's results. A write also returns the new
map:

- `Reply(value, err, db)` for a `(T, error)` result;
- `Effect(err, db)` for an `error`-only result;
- `Answer(value, err)` for a read.

On every error path the value is Go's zero value (`ZeroVehicle`, or an empty
map), as in the source. The error strings are the source's own, verbatim, in
`Errors.Message`. The HTTP layer picks status codes by comparing these strings.

Modules, one per file:

| file | module | contents |
|---|---|---|
| `wrappers.dfy` | `Wrappers` | `Option`, `Result` |
| `text.dfy` | `Text` | `strings.ToLower` on ASCII letters; `strconv.Atoi` for a 64-bit `int`, with its reference meaning and the `Itoa` round trip |
| `models.dfy` | `Models` | `Vehicle` (nested attributes and dimensions), the flat `VehicleDoc`, the fourteen `Field`s and what "present" means for each |
| `errors.dfy` | `Errors` | the error kinds and their message strings |
| `repository.dfy` | `Repository` | `VehicleMap` and the store operations the service relies on |
| `service.dfy` | `Service` | `VehicleDefault`, the batch-insert theory, and properties that relate several operations |

Modelling decisions:

- Go's `int` is taken to be 64 bits wide, as on a 64-bit platform, so ids, years
  and capacities have type `Models.Int64`.
- Go's `float64` fields (top speed, weight, dimensions) are modelled as `real`.
- The service is modelled over the `VehicleMap` store, the repository
  implementation in the files modelled here. Its error branch after `rp.AddVehicle`
  (`vehicle_default.go:45-47`) is therefore unreachable. `Service.AddVehicle`'s
  contract proves this: it fails only for the two reasons it checks itself.
- The service keeps its own copy of the completeness check
  (`vehicle_default.go:207-225`). It is identical to the store's
  (`vehicle_map.go:87-105`), so both are modelled by the one predicate
  `Repository.AreMandatoryFieldsOK`.
- The store's own `VehicleMap.AddVehicle` checks completeness and refuses a
  known id (`vehicle_map.go:39-55`), so `Repository.AddVehicle` never
  overwrites an entry.
- The completeness check rejects only a zero capacity, so a negative capacity
  is accepted.
- Every write files a vehicle under its own id, and so does the loader. The
  model states this store invariant as `Repository.KeyedById`, which means no
  two records share an id, and proves that every write keeps it.
- The service also calls five repository methods whose bodies are not part of
  this model. Their signatures are in
  `internal/repository/vehicle_repository.go`; their behaviour is assumed as
  follows:
  - `FindVehiclesByBrandAndRangeYears`: the sub-map with the brand equal
    ignoring case and the year inside the inclusive range. It is assumed never
    to fail, although its signature returns an error.
  - `FindVehiclesByFuel` and `FindVehiclesByTransmission`: the sub-map whose
    field is equal ignoring case.
  - `UpdateMaxSpeed`: replaces the stored vehicle's top speed, or fails with
    "Vehicle not found".
  - `DeleteVehicle`: removes the key, or fails with "Vehicle not found".

## Model

| member | source | states |
|---|---|---|
| Repository.NewVehicleMap | internal/repository/vehicle_map.go:10-17 | a nil map yields an empty store; any other map becomes the store unchanged |
| Repository.FindAll | internal/repository/vehicle_map.go:26-35 | the key-by-key copy loop returns a map equal to the store and no error |
| Repository.MandatoryFieldsMeanAllPresent | internal/repository/vehicle_map.go:87-105 | the completeness check holds iff each of the fourteen fields is non-zero (numbers) or non-empty (texts) |
| Repository.ClearedFieldIsIncomplete | internal/repository/vehicle_map.go:87-105 | zeroing any single mandatory field of any vehicle makes it fail the completeness check |
| Repository.GetVehicleById | internal/repository/vehicle_map.go:58-69 | succeeds iff the id is stored, returning the stored vehicle; otherwise "Vehicle not found" with the zero vehicle |
| Repository.AddVehicle | internal/repository/vehicle_map.go:37-56 | an incomplete vehicle gives the incomplete-fields error; then a known id gives the duplicate-id error; both leave the store unchanged; otherwise the store becomes `db[v.id := v]` (one more key) and `v` is returned |
| Repository.AreMandatoryFieldsOK | internal/service/vehicle_default.go:207-225 | the service's copy of the completeness check is this same predicate: none of the fourteen fields holds its zero value; its meaning is stated by `Repository.MandatoryFieldsMeanAllPresent` |
| Errors.Message | internal/repository/vehicle_map.go:41-64 | the error texts verbatim, including the six of `vehicle_default.go` (lines 64, 106, 114, 128, 155, 177); a parse failure's text starts with the `strconv.Atoi: parsing "` prefix followed by the rejected input |
| Errors.MessageIdentifiesError | internal/handler/vehicle.go:81-86 | two different errors never have the same text, so dispatching on the text recovers the error |
| Repository.FindVehiclesByColorAndYear | internal/repository/vehicle_map.go:72-85 | the scan loop returns exactly the sub-map (same keys, same values) whose colour equals the query ignoring case and whose year equals the query year |
| Repository.FindVehiclesByBrandAndRangeYears | internal/repository/vehicle_repository.go:12 | assumed: the sub-map with brand equal ignoring case and `startYear <= year <= endYear`; never an error |
| Repository.FindVehiclesByFuel | internal/repository/vehicle_repository.go:15 | assumed: the sub-map whose fuel type equals the query ignoring case |
| Repository.FindVehiclesByTransmission | internal/repository/vehicle_repository.go:17 | assumed: the sub-map whose transmission equals the query ignoring case |
| Repository.UpdateMaxSpeed | internal/repository/vehicle_repository.go:14 | assumed: a known id gets its top speed replaced; an unknown id gives "Vehicle not found" and no change |
| Repository.DeleteVehicle | internal/repository/vehicle_repository.go:16 | assumed: a known id is removed, every other entry kept; an unknown id gives "Vehicle not found" and no change |
| Text.ToLower | internal/repository/vehicle_map.go:80 | lower-casing keeps the length, turns each ASCII capital into its own lower-case letter, and keeps every other character; no capital is left |
| Text.UpperMatchesLower | internal/repository/vehicle_map.go:80 | a text and its upper-cased form compare equal under the ignore-case comparison |
| Text.Atoi | internal/service/vehicle_default.go:57 | every value the year parser accepts lies in the 64-bit `int` range |
| Text.AtoiMeaning | internal/service/vehicle_default.go:57-60 | the parser fails on any text that is not an optional sign followed by digits; on such a numeral it succeeds iff the value fits in an int64, and returns that value; outside the int64 range the error is a range error, not a syntax error |
| Text.AtoiItoaRoundTrip | internal/service/vehicle_default.go:57 | every int64 written in decimal parses back to itself |
| Text.AtoiRejectsWords | internal/service/vehicle_default.go:57-60 | "abc", "" and "-" are syntax errors |
| Service.MapDocToVehicle | internal/service/vehicle_default.go:183-205 | turning the result back into a flat document gives the input document; the id is carried over |
| Service.DocConversionRoundTrip | internal/handler/vehicle.go:43-58 | the document-to-vehicle conversion and the handler's vehicle-to-document conversion are inverse bijections |
| Service.FindAll | internal/service/vehicle_default.go:23-26 | returns a map equal to the store and no error |
| Service.AddVehicle | internal/service/vehicle_default.go:28-53 | an incomplete converted vehicle gives "Campos incompletos o mal formados" and no change; then a known id gives "Identificador del vehículo ya existente" and no change; otherwise the converted vehicle is stored at its id and returned; the repository-error branch is never taken |
| Service.FindVehiclesByColorAndYear | internal/service/vehicle_default.go:56-67 | an unparsable year gives the parser's error with an empty map; a parsed year with no match gives the no-match error with an empty map; otherwise the matching sub-map with no error |
| Service.FindVehiclesByBrandAndRangeYears | internal/service/vehicle_default.go:69-81 | given the assumed never-failing repository filter: succeeds iff some stored vehicle matches brand and year range, returning exactly the matching sub-map; otherwise the no-match error with an empty map |
| Service.AddMultipleVehicles | internal/service/vehicle_default.go:100-124 | a batch never removes or overwrites an entry that was already stored, and fails only with the batch-incomplete or batch-duplicate error |
| Service.BatchSucceedsIffAdmissible | internal/service/vehicle_default.go:100-124 | the batch succeeds iff every document is complete, its id is not stored, and no earlier document in the batch has the same id; then the store gains every document in order |
| Service.BatchStopsAtRefusal | internal/service/vehicle_default.go:101-121 | after an admissible run is stored, a refused document ends the batch with its own error, whatever follows; the store holds the old entries plus that run |
| Service.BatchCommitsPrefix | internal/service/vehicle_default.go:100-124 | a failed batch leaves an admissible prefix of k documents committed; document k is refused with the error its refusal names (incompleteness checked first) |
| Service.BatchRepeatedIdFailsAtSecondOccurrence | internal/service/vehicle_default.go:109-115 | an id repeated within a batch whose earlier documents pass is refused at its second occurrence with the duplicate error; the prefix stays stored, and the first vehicle with that id is kept |
| Service.UpdateMaxSpeed | internal/service/vehicle_default.go:126-142 | a speed `<= 0` gives "Velocidad mal formada o fuera de rango." even for an unknown id; then an unknown id gives "Vehicle not found"; both change nothing; otherwise only that vehicle's speed is replaced |
| Service.GetVehicleById | internal/service/vehicle_default.go:144-150 | succeeds iff the id is stored, returning the stored vehicle; otherwise "Vehicle not found" with the zero vehicle |
| Service.FindVehiclesByFuel | internal/service/vehicle_default.go:152-159 | succeeds iff some stored vehicle has that fuel ignoring case, returning the repository's sub-map unchanged; otherwise the fuel no-match error with an empty map |
| Service.DeleteVehicle | internal/service/vehicle_default.go:161-172 | an unknown id gives "Vehicle not found" and changes nothing; a known id is removed and all other entries are kept |
| Service.FindVehiclesByTransmission | internal/service/vehicle_default.go:174-181 | succeeds iff some stored vehicle has that transmission ignoring case, returning the repository's sub-map unchanged; otherwise the transmission no-match error with an empty map |
| Service.LoadVehicles | internal/loader/vehicle_json.go:38-61 | the loader's loop files each document under its id, a later one replacing an earlier one; the result is the reference fold `CommitAll`, its keys are exactly the batch's ids, and it is keyed by id |
| Service.CommitAllKeepsKeyedById | internal/loader/vehicle_json.go:41 | filing documents under their own ids keeps a store keyed by id |
| Service.AddVehicleKeepsKeyedById | internal/repository/vehicle_map.go:50 | a single insert keeps the store keyed by id |
| Service.AddMultipleVehiclesKeepsKeyedById | internal/service/vehicle_default.go:100-124 | a batch insert keeps the store keyed by id, whether it completes or stops at a refusal |
| Service.UpdateMaxSpeedKeepsKeyedById | internal/service/vehicle_default.go:126-142 | a speed update keeps the store keyed by id |
| Service.DeleteVehicleKeepsKeyedById | internal/service/vehicle_default.go:161-172 | a delete keeps the store keyed by id |
| Service.AddThenGet | internal/service/vehicle_default.go:28-53 | after a successful insert, looking the id up returns the inserted vehicle |
| Service.SecondAddWithSameIdFails | internal/service/vehicle_default.go:38-52 | a second complete insert under a used id is refused with the duplicate error, the store unchanged and the first vehicle kept |
| Service.DistinctAddsCoexist | internal/service/vehicle_default.go:38-49 | two successful inserts under distinct ids both remain readable |
| Service.MissingFieldRefused | internal/service/vehicle_default.go:30-36 | a document missing any single mandatory field is refused with the incomplete-fields error and the store is unchanged |
| Service.DeleteThenGet | internal/service/vehicle_default.go:161-172 | after a successful delete the id is no longer found |
| Service.UpdateMaxSpeedThenGet | internal/service/vehicle_default.go:126-142 | after a successful update, the vehicle read back has the new speed and differs from before in nothing else |
| Service.ColorFilterIgnoresCase | internal/repository/vehicle_map.go:80 | the colour+year filter gives the same sub-map for a colour and its upper-cased form |
| Service.FuelFilterIgnoresCase | internal/service/vehicle_default.go:152-159 | a stored vehicle is found, unchanged, by its fuel type written in capitals |

## Left out

- `FindAverageOfSpeedByBrand` (`vehicle_default.go:83-98`) is left out. It sums and divides `float64` values, and its "sum equals 0 means not found" rule depends on floating-point arithmetic. The repository's `FindVehiclesByBrand`, used only there, is left out with it.
- `UpdateFuel`, `GetAveragePeopleCapacityByBrand`, `FindVehiclesByDimensions` and `FindVehiclesByWeigth` are left out. They appear only as interface signatures and have no implementation in the files modelled here. The same holds for the repository's `GetVehiclesByBrand`.
- The HTTP handler (`internal/handler/vehicle.go`) is left out: URL parameters, JSON decoding and encoding, and mapping error strings to status codes. Only its vehicle-to-document conversion is used, as the inverse of `mapDocToVehicle`.
- The JSON file loader (`internal/loader/vehicle_json.go`) is modelled only from its decoded documents on, as `Service.LoadVehicles`. Opening the file and decoding the JSON are left out. The loader does not validate the documents. `Repository.NewVehicleMap` receives the resulting map as a parameter.
- Floating point is not modelled. `real` has no NaN, no negative zero and no rounding. In Go, a NaN speed passes the `newSpeed <= 0` test of `UpdateMaxSpeed`, and a NaN field counts as present.
- `Text.ToLower` lower-cases only the ASCII letters A-Z. Go's `strings.ToLower` also lower-cases non-ASCII letters, such as "É".
- `Text.Atoi` returns only the error kind on failure. Go's `strconv.Atoi` also returns a clamped value with a range error, which the service discards.
- `Errors.Message` puts a rejected year between plain quotes. Go escapes it with `strconv.Quote`, so the texts differ when the year contains `"`, `\` or a non-printable character.
- `Service.FindVehiclesByBrandAndRangeYears` does not model the pass-through of a repository error (`vehicle_default.go:72-74`), because the assumed repository filter never fails.
- Concurrency is not modelled. The store has no locking, so the check-then-insert race between concurrent requests is outside this sequential model.
- The five repository methods listed above as assumed have their behaviour assumed, not derived from code. Their bodies are not part of this model.
