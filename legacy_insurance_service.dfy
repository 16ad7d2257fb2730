/** The older insurance services. Their insert, by-car, by-provider and list-all
    services have the same conditions and messages as the current ones
    (InsuranceService.CreateInsurance, GetInsurancesByCarId,
    GetInsurancesByProvider, GetAllInsurances); the by-ID lookup differs: it uses
    `findFirst`, so it yields one row or `null`. */
module LegacyInsuranceService {
  import opened Common
  import opened Entities
  import opened Tables
  import InsuranceService

  /** getInsuranceByIdService: the first insurance with that ID, `None` for `null`. */
  function GetInsuranceById(rows: seq<Insurance>, insuranceId: int, failure: Option<string>)
    : (r: Result<Option<Insurance>>)
    ensures failure.Some? ==> r == Err(InsuranceService.ByIdPrefix + failure.value)
    ensures failure.None? ==> r.Ok?
    ensures failure.None? ==> (r.value.None? <==> forall x :: x in rows ==> x.insuranceID != insuranceId)
    ensures failure.None? && r.value.Some? ==> r.value.value in rows && r.value.value.insuranceID == insuranceId
  {
    if failure.Some? then Err(InsuranceService.ByIdPrefix + failure.value)
    else Ok(FindFirst(rows, InsuranceService.WithInsuranceId(insuranceId)))
  }

  /** The older lookup answers `null` exactly where the current one answers `[]`,
      and otherwise the first row of the current one's answer. */
  lemma ByIdVariantsAgree(rows: seq<Insurance>, insuranceId: int)
    ensures var older := GetInsuranceById(rows, insuranceId, None).value;
            var current := InsuranceService.GetInsuranceById(rows, insuranceId, None).value;
            (older.None? <==> current == []) && (older.Some? ==> older.value == current[0])
  {
  }
}
