/**
 * The vehicle record and its transport form. A stored `Vehicle` nests its
 * attributes and dimensions; a `VehicleDoc` carries the same fourteen
 * fields flat. Go's float64 fields are modelled as `real`.
 */
module Models {

  /** Go's `int` on a 64-bit platform. */
  type Int64 = x: int | -0x8000_0000_0000_0000 <= x <= 0x7FFF_FFFF_FFFF_FFFF

  datatype Dimensions = Dimensions(height: real, length: real, width: real)

  datatype VehicleAttributes = VehicleAttributes(
    brand: string,
    model: string,
    registration: string,
    color: string,
    fabricationYear: Int64,
    capacity: Int64,
    maxSpeed: real,
    fuelType: string,
    transmission: string,
    weight: real,
    dimensions: Dimensions)

  datatype Vehicle = Vehicle(id: Int64, attributes: VehicleAttributes)

  datatype VehicleDoc = VehicleDoc(
    id: Int64,
    brand: string,
    model: string,
    registration: string,
    color: string,
    fabricationYear: Int64,
    capacity: Int64,
    maxSpeed: real,
    fuelType: string,
    transmission: string,
    weight: real,
    height: real,
    length: real,
    width: real)

  /** Go's zero value `models.Vehicle{}`, returned alongside every error. */
  const ZeroVehicle := Vehicle(0, VehicleAttributes("", "", "", "", 0, 0, 0.0, "", "", 0.0, Dimensions(0.0, 0.0, 0.0)))

  /** The fourteen mandatory fields of a vehicle. */
  datatype Field =
    | Id | Brand | Model | Registration | Color | FabricationYear | Capacity
    | MaxSpeed | FuelType | Transmission | Weight | Height | Length | Width

  /** A field is present when it is not Go's zero value for its type. */
  predicate Present(v: Vehicle, f: Field) {
    var a := v.attributes;
    match f
    case Id => v.id != 0
    case Brand => |a.brand| != 0
    case Model => |a.model| != 0
    case Registration => |a.registration| != 0
    case Color => |a.color| != 0
    case FabricationYear => a.fabricationYear != 0
    case Capacity => a.capacity != 0
    case MaxSpeed => a.maxSpeed != 0.0
    case FuelType => |a.fuelType| != 0
    case Transmission => |a.transmission| != 0
    case Weight => a.weight != 0.0
    case Height => a.dimensions.height != 0.0
    case Length => a.dimensions.length != 0.0
    case Width => a.dimensions.width != 0.0
  }

  /** The vehicle with one field reset to its zero value. */
  function Clear(v: Vehicle, f: Field): (r: Vehicle)
    ensures !Present(r, f)
    ensures forall g :: g != f ==> (Present(r, g) <==> Present(v, g))
  {
    var a := v.attributes;
    var d := a.dimensions;
    match f
    case Id => v.(id := 0)
    case Brand => v.(attributes := a.(brand := ""))
    case Model => v.(attributes := a.(model := ""))
    case Registration => v.(attributes := a.(registration := ""))
    case Color => v.(attributes := a.(color := ""))
    case FabricationYear => v.(attributes := a.(fabricationYear := 0))
    case Capacity => v.(attributes := a.(capacity := 0))
    case MaxSpeed => v.(attributes := a.(maxSpeed := 0.0))
    case FuelType => v.(attributes := a.(fuelType := ""))
    case Transmission => v.(attributes := a.(transmission := ""))
    case Weight => v.(attributes := a.(weight := 0.0))
    case Height => v.(attributes := a.(dimensions := d.(height := 0.0)))
    case Length => v.(attributes := a.(dimensions := d.(length := 0.0)))
    case Width => v.(attributes := a.(dimensions := d.(width := 0.0)))
  }

  /** The vehicle with its top speed replaced and every other field kept. */
  function WithMaxSpeed(v: Vehicle, speed: real): (r: Vehicle)
    ensures r.attributes.maxSpeed == speed
    ensures r.id == v.id
    ensures r.(attributes := r.attributes.(maxSpeed := v.attributes.maxSpeed)) == v
  {
    v.(attributes := v.attributes.(maxSpeed := speed))
  }

  /** The flat document the HTTP layer sends back for a stored vehicle. */
  function VehicleToDoc(v: Vehicle): VehicleDoc {
    var a := v.attributes;
    VehicleDoc(v.id, a.brand, a.model, a.registration, a.color, a.fabricationYear,
               a.capacity, a.maxSpeed, a.fuelType, a.transmission, a.weight,
               a.dimensions.height, a.dimensions.length, a.dimensions.width)
  }
}
