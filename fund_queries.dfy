/**
 * The fund queries of ContactManagement.Application.Features.Funds: one fund
 * by identifier and the list of all funds.  Both only read the table.
 */
module FundQueries {
  import opened Wrappers
  import opened Common
  import opened Kernel
  import opened Entities
  import opened Persistence
  import opened Dtos
  import opened FundRepository
  import FundCommands
  import DomainErrors

  /** The DTOs of a sequence of rows, one per row and in the same order. */
  function FundDtos(rows: seq<Row<FundData>>): (r: seq<FundDto>)
    ensures |r| == |rows|
    ensures forall i :: 0 <= i < |rows| ==> r[i] == FundDtoOf(rows[i])
  {
    seq(|rows|, i requires 0 <= i < |rows| => FundDtoOf(rows[i]))
  }

  /** GetFundQueryHandler.Handle: the DTO of the live fund with that identifier. */
  function GetFund(entityName: string, rows: seq<Row<FundData>>, id: Guid, fault: Fault): (r: Result<FundDto>)
    ensures r.IsSuccess() <==> fault.NoFault? && HasRow(rows, id, LiveOnly)
    ensures r.IsSuccess() ==>
              exists i :: 0 <= i < |rows| && rows[i].meta.id == id && !rows[i].meta.isDeleted && r.value == FundDtoOf(rows[i])
    ensures fault.Throws? ==> r == Result.InternalServerError(DomainErrors.GeneralServerError(entityName, fault.message))
    ensures fault.NoFault? && !HasRow(rows, id, LiveOnly) ==> r == Result.NotFound(NotFoundOf(entityName))
  {
    var fundResult := GetById(entityName, rows, id, fault);
    if fundResult.IsFailure() then Result.FromResult(fundResult)
    else Result.Success(FundDtoOf(fundResult.value))
  }

  /** A fund just created is what the next GetFund of its identifier answers. */
  lemma GetFundAfterCreate(entityName: string, rows: seq<Row<FundData>>, id: Guid, now: Time, name: string)
    requires UniqueIds(rows) && IdsBelow(rows, id) && AllNamesValid(rows)
    requires !NameTaken(rows, Some(name)) && ValidateFund(name).IsSuccess()
    ensures var o := FundCommands.CreateFundOutcome(entityName, rows, id, now, name, NoFault, NoFault);
            GetFund(entityName, o.rows, id, NoFault) == o.result
  {
    FundCommands.CreateFundStoresFund(entityName, rows, id, now, name);
  }

  /** A soft-deleted fund is no longer found. */
  lemma GetFundOfSoftDeleted(entityName: string, rows: seq<Row<FundData>>, id: Guid, now: Time)
    requires UniqueIds(rows) && HasRow(rows, id, AnyState)
    ensures GetFund(entityName, SoftDeletedRows(rows, id, now), id, NoFault) == Result.NotFound(NotFoundOf(entityName))
  {
    SoftDeleteHidesRow(rows, id, now);
  }

  /** GetAllFundsQueryHandler.Handle: the DTOs of the rows `GetAllAsync(includeDeleted)` returns. */
  function GetAllFunds(funds: BaseRepository<FundData>, includeDeleted: bool, fault: Fault): (r: Result<seq<FundDto>>)
    reads funds
    ensures fault.Throws? ==> r == Result.InternalServerError(funds.ServerError(fault.message))
    ensures fault.NoFault? ==> r.IsSuccess() && r.value == FundDtos(Visible(funds.rows, includeDeleted))
  {
    var fundsResult := funds.GetAll(includeDeleted, fault);
    if fundsResult.IsFailure() then Result.FromResult(fundsResult)
    else Result.Success(FundDtos(fundsResult.value))
  }

  /**
   * The listing holds a DTO for every fund it should show and nothing else:
   * with `includeDeleted` one per row in table order, and otherwise exactly
   * the live funds; an empty table gives an empty list.
   */
  lemma GetAllFundsLists(funds: BaseRepository<FundData>, includeDeleted: bool)
    ensures var r := GetAllFunds(funds, includeDeleted, NoFault);
            && r.IsSuccess()
            && (includeDeleted ==> r.value == FundDtos(funds.rows))
            && (forall i :: 0 <= i < |funds.rows| && (includeDeleted || !funds.rows[i].meta.isDeleted) ==>
                  FundDtoOf(funds.rows[i]) in r.value)
            && (forall d :: d in r.value ==>
                  exists i :: 0 <= i < |funds.rows| && (includeDeleted || !funds.rows[i].meta.isDeleted) &&
                              d == FundDtoOf(funds.rows[i]))
            && (funds.rows == [] ==> r.value == [])
  {
    var v := Visible(funds.rows, includeDeleted);
    var r := GetAllFunds(funds, includeDeleted, NoFault);
    forall i | 0 <= i < |funds.rows| && (includeDeleted || !funds.rows[i].meta.isDeleted)
      ensures FundDtoOf(funds.rows[i]) in r.value
    {
      var j :| 0 <= j < |v| && v[j] == funds.rows[i];
      assert r.value[j] == FundDtoOf(funds.rows[i]);
    }
    forall d | d in r.value
      ensures exists i :: 0 <= i < |funds.rows| && (includeDeleted || !funds.rows[i].meta.isDeleted) &&
                          d == FundDtoOf(funds.rows[i])
    {
      var j :| 0 <= j < |r.value| && r.value[j] == d;
      assert v[j] in funds.rows;
      var i :| 0 <= i < |funds.rows| && funds.rows[i] == v[j];
    }
  }
}
