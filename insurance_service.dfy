/** The insurance services of the current API: an insert that reports failure
    with a prefix, and four lookups that rethrow a read failure with their own
    prefix. The left join with the car table only decorates the insurance rows
    the `where` clause keeps. */
module InsuranceService {
  import opened Common
  import opened Entities
  import opened Tables
  import opened Patterns
  import Db

  const CreatePrefix := "Create insurance error: "
  const NoRowMessage := "Failed to create insurance."
  const ByIdPrefix := "Get insurance by ID error: "
  const ByCarPrefix := "Get insurances by car ID error: "
  const ByProviderPrefix := "Get insurances by provider error: "
  const AllPrefix := "Get all insurances error: "

  function WithInsuranceId(insuranceId: int): Insurance -> bool { (x: Insurance) => x.insuranceID == insuranceId }
  function ForCar(carId: int): Insurance -> bool { (x: Insurance) => x.carID == carId }

  /** The `where` of the provider search: `insuranceProvider ILIKE '%provider%'`. */
  function ProviderLike(provider: string): Insurance -> bool
  {
    (x: Insurance) => ILike(x.insuranceProvider, "%" + provider + "%")
  }

  /** createInsuranceService */
  method CreateInsurance(db: Db.Database, insuranceData: Insurance, reply: InsertReply) returns (r: Result<Insurance>)
    modifies db`insurances
    ensures reply == Stored ==> r == Ok(insuranceData) && db.insurances == old(db.insurances) + [insuranceData]
    ensures reply == NoRow ==> r == Err(CreatePrefix + NoRowMessage) && db.insurances == old(db.insurances)
    ensures reply.Fails? ==> r == Err(CreatePrefix + reply.message) && db.insurances == old(db.insurances)
  {
    match reply {
      case Stored =>
        db.insurances := db.insurances + [insuranceData];
        r := Ok(insuranceData);
      case NoRow =>
        r := Err(CreatePrefix + NoRowMessage);
      case Fails(message) =>
        r := Err(CreatePrefix + message);
    }
  }

  /** getInsuranceByIdService: the `select` yields an array, which is never
      falsy, so `|| null` never applies and an unknown ID gives `[]`. */
  function GetInsuranceById(rows: seq<Insurance>, insuranceId: int, failure: Option<string>)
    : (r: Result<seq<Insurance>>)
    ensures failure.Some? ==> r == Err(ByIdPrefix + failure.value)
    ensures failure.None? ==> r.Ok? && forall x :: x in r.value <==> x in rows && x.insuranceID == insuranceId
  {
    if failure.Some? then Err(ByIdPrefix + failure.value)
    else Ok(Where(rows, WithInsuranceId(insuranceId)))
  }

  /** getInsurancesByCarIdService */
  function GetInsurancesByCarId(rows: seq<Insurance>, carId: int, failure: Option<string>)
    : (r: Result<seq<Insurance>>)
    ensures failure.Some? ==> r == Err(ByCarPrefix + failure.value)
    ensures failure.None? ==> r.Ok? && forall x :: x in r.value <==> x in rows && x.carID == carId
  {
    if failure.Some? then Err(ByCarPrefix + failure.value)
    else Ok(Where(rows, ForCar(carId)))
  }

  /** getInsurancesByProviderService */
  function GetInsurancesByProvider(rows: seq<Insurance>, provider: string, failure: Option<string>)
    : (r: Result<seq<Insurance>>)
    ensures failure.Some? ==> r == Err(ByProviderPrefix + failure.value)
    ensures failure.None? ==> r.Ok?
    ensures failure.None? ==>
      forall x :: x in r.value <==> x in rows && ILike(x.insuranceProvider, "%" + provider + "%")
  {
    if failure.Some? then Err(ByProviderPrefix + failure.value)
    else Ok(Where(rows, ProviderLike(provider)))
  }

  /** getAllInsurancesService */
  function GetAllInsurances(rows: seq<Insurance>, failure: Option<string>): (r: Result<seq<Insurance>>)
    ensures failure.Some? ==> r == Err(AllPrefix + failure.value)
    ensures failure.None? ==> r == Ok(rows)
  {
    if failure.Some? then Err(AllPrefix + failure.value) else Ok(rows)
  }

  /** For a provider without `%` or `_`, the search keeps exactly the rows whose
      provider contains it, ignoring case. */
  lemma ProviderSearchIsSubstring(rows: seq<Insurance>, provider: string)
    requires NoWildcards(provider)
    ensures forall x :: x in GetInsurancesByProvider(rows, provider, None).value <==>
      x in rows && ContainsIgnoringCase(x.insuranceProvider, provider)
  {
    forall x | x in rows {
      SubstringPattern(x.insuranceProvider, provider);
    }
  }

  /** The empty provider lists every insurance. */
  lemma EmptyProviderListsAll(rows: seq<Insurance>)
    ensures GetInsurancesByProvider(rows, "", None) == Ok(rows)
  {
    forall x | x in rows ensures ProviderLike("")(x) {
      EmptyProviderMatchesAll(x.insuranceProvider);
    }
    WhereAll(rows, ProviderLike(""));
  }

  /** Providers that differ only in case give the same list. */
  lemma ProviderCaseIrrelevant(rows: seq<Insurance>, provider: string, other: string)
    requires SameIgnoringCase(provider, other)
    ensures GetInsurancesByProvider(rows, provider, None) == GetInsurancesByProvider(rows, other, None)
  {
    assert SameIgnoringCase("%" + provider + "%", "%" + other + "%") by {
      var a, b := "%" + provider + "%", "%" + other + "%";
      forall i | 0 <= i < |a| ensures Lower(a[i]) == Lower(b[i]) {
        if 0 < i <= |provider| { assert a[i] == provider[i - 1] && b[i] == other[i - 1]; }
      }
    }
    forall x | x in rows ensures ProviderLike(provider)(x) == ProviderLike(other)(x) {
      CaseOfPatternIrrelevant(x.insuranceProvider, "%" + provider + "%", "%" + other + "%");
    }
    WhereCongruent(rows, ProviderLike(provider), ProviderLike(other));
  }
}
