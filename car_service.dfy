/** The car services. Every failure is logged and swallowed: the insert and the
    lookups answer `[]` instead of throwing. The update overwrites the supplied
    fields of the rows with the given carID and lets errors propagate. */
module CarService {
  import opened Common
  import opened Entities
  import opened Tables
  import Db

  function WithCarId(carId: int): Car -> bool { (c: Car) => c.carID == carId }
  function OfModel(model: string): Car -> bool { (c: Car) => c.carModel == model }
  function Available(): Car -> bool { (c: Car) => c.availability }
  function AtLocation(locationId: int): Car -> bool { (c: Car) => c.locationID == locationId }
  function NamedLocation(name: string): Location -> bool { (l: Location) => l.locationName == name }

  /** createCarService: the stored car, or `None` standing for the `[]` returned
      when no row comes back or the driver throws. */
  method CreateCar(db: Db.Database, carData: Car, reply: InsertReply) returns (r: Option<Car>)
    modifies db`cars
    ensures reply == Stored ==> r == Some(carData) && db.cars == old(db.cars) + [carData]
    ensures reply != Stored ==> r == None && db.cars == old(db.cars)
  {
    if reply == Stored {
      db.cars := db.cars + [carData];
      r := Some(carData);
    } else {
      r := None;
    }
  }

  /** getCarByIdService; `failed` says whether the query threw. */
  function GetCarById(rows: seq<Car>, id: int, failed: bool): (r: seq<Car>)
    ensures failed ==> r == []
    ensures !failed ==> forall c :: c in r <==> c in rows && c.carID == id
  {
    if failed then [] else Where(rows, WithCarId(id))
  }

  /** getCarsByCarModelService: an empty answer is thrown and caught, so it also
      comes out as `[]`. */
  function GetCarsByCarModel(rows: seq<Car>, model: string, failed: bool): (r: seq<Car>)
    ensures failed ==> r == []
    ensures !failed ==> forall c :: c in r <==> c in rows && c.carModel == model
  {
    var cars := Where(rows, OfModel(model));
    if !failed && |cars| > 0 then cars else []
  }

  /** getAllAvailableCarsService */
  function GetAllAvailableCars(rows: seq<Car>, failed: bool): (r: seq<Car>)
    ensures forall c :: c in r ==> c in rows && c.availability
    ensures !failed ==> forall c :: c in rows && c.availability ==> c in r
    ensures failed ==> r == []
  {
    if failed then [] else Where(rows, Available())
  }

  /** getAllCarsInACertainLocationService: the first location with exactly that
      name, then the cars at its locationID; an unknown name yields `[]`. */
  function GetAllCarsInACertainLocation(locations: seq<Location>, cars: seq<Car>, locationName: string,
                                        failed: bool): (r: seq<Car>)
    ensures failed ==> r == []
    ensures (forall l :: l in locations ==> l.locationName != locationName) ==> r == []
    ensures !failed && (exists l :: l in locations && l.locationName == locationName) ==>
      exists i ::
        && 0 <= i < |locations| && locations[i].locationName == locationName
        && (forall j :: 0 <= j < i ==> locations[j].locationName != locationName)
        && (forall c :: c in r <==> c in cars && c.locationID == locations[i].locationID)
  {
    if failed then []
    else match FindFirst(locations, NamedLocation(locationName))
      case None => []
      case Some(location) => Where(cars, AtLocation(location.locationID))
  }

  /** The object passed to `set`: the carID selecting the rows, and the fields to
      overwrite, `None` for a field left out of the object. */
  datatype CarPatch = CarPatch(
    carID: int,
    carModel: Option<string>,
    year: Option<string>,
    color: Option<string>,
    rentalRate: Option<string>,
    availability: Option<bool>,
    locationID: Option<int>)

  function Pick<T>(supplied: Option<T>, current: T): T
  {
    if supplied.Some? then supplied.value else current
  }

  /** One row after `set(patch)`. */
  function Patched(c: Car, p: CarPatch): Car
  {
    Car(c.carID, Pick(p.carModel, c.carModel), Pick(p.year, c.year), Pick(p.color, c.color),
        Pick(p.rentalRate, c.rentalRate), Pick(p.availability, c.availability),
        Pick(p.locationID, c.locationID))
  }

  /** The car table after `update(...).set(patch).where(carID = patch.carID)`. */
  function ApplyPatch(rows: seq<Car>, p: CarPatch): (r: seq<Car>)
    ensures |r| == |rows|
    ensures forall i :: 0 <= i < |rows| ==> r[i].carID == rows[i].carID
    ensures forall i :: 0 <= i < |rows| && rows[i].carID != p.carID ==> r[i] == rows[i]
    ensures forall i :: 0 <= i < |rows| && rows[i].carID == p.carID ==> r[i] == Patched(rows[i], p)
    decreases |rows|
  {
    if rows == [] then []
    else [if rows[0].carID == p.carID then Patched(rows[0], p) else rows[0]] + ApplyPatch(rows[1..], p)
  }

  /** updateCarsService: the rows the update touched, as `returning()` gives them. */
  method UpdateCars(db: Db.Database, p: CarPatch) returns (updated: seq<Car>)
    modifies db`cars
    ensures db.cars == ApplyPatch(old(db.cars), p)
    ensures updated == Where(db.cars, WithCarId(p.carID))
  {
    db.cars := ApplyPatch(db.cars, p);
    updated := Where(db.cars, WithCarId(p.carID));
  }

  /** Every row the update selects carries the supplied values afterwards. */
  lemma UpdatedRowsCarrySuppliedFields(rows: seq<Car>, p: CarPatch, i: int)
    requires 0 <= i < |rows| && rows[i].carID == p.carID
    ensures var c := ApplyPatch(rows, p)[i];
      && (p.carModel.Some? ==> c.carModel == p.carModel.value)
      && (p.year.Some? ==> c.year == p.year.value)
      && (p.color.Some? ==> c.color == p.color.value)
      && (p.rentalRate.Some? ==> c.rentalRate == p.rentalRate.value)
      && (p.availability.Some? ==> c.availability == p.availability.value)
      && (p.locationID.Some? ==> c.locationID == p.locationID.value)
  {
  }

  /** Running the same update twice leaves the table as running it once. */
  lemma {:induction false} UpdateIdempotent(rows: seq<Car>, p: CarPatch)
    ensures ApplyPatch(ApplyPatch(rows, p), p) == ApplyPatch(rows, p)
  {
    var once := ApplyPatch(rows, p);
    var twice := ApplyPatch(once, p);
    forall i | 0 <= i < |rows| ensures twice[i] == once[i] {
    }
  }

  /** The update returns exactly the rows it selected, in their updated form. */
  lemma UpdateReturnsPatchedRows(rows: seq<Car>, p: CarPatch)
    ensures forall c :: c in Where(ApplyPatch(rows, p), WithCarId(p.carID)) <==>
      exists i :: 0 <= i < |rows| && rows[i].carID == p.carID && c == Patched(rows[i], p)
  {
    var r := ApplyPatch(rows, p);
    forall c | c in Where(r, WithCarId(p.carID))
      ensures exists i :: 0 <= i < |rows| && rows[i].carID == p.carID && c == Patched(rows[i], p)
    {
      var i :| 0 <= i < |r| && r[i] == c;
    }
  }
}
