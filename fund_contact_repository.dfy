/**
 * FundContactRepository: the association table between contacts and funds.
 *
 * The table has no unique index on (ContactId, FundId): the schema dropped
 * it, so at most one live association per pair is an invariant the
 * assignment command keeps, not one the store enforces.
 */
module FundContactRepository {
  import opened Wrappers
  import opened Common
  import opened Kernel
  import opened Linq
  import opened Entities
  import opened Persistence
  import DomainErrors

  /** The entity name written into this repository's server errors. */
  const EntityName := "FundContact"

  function ServerError(message: string): Error {
    DomainErrors.GeneralServerError(EntityName, message)
  }

  /** A live association of this contact with this fund. */
  predicate IsLivePair(row: Row<FundContactData>, contactId: Guid, fundId: Guid) {
    !row.meta.isDeleted && row.data.contactId == contactId && row.data.fundId == fundId
  }

  predicate HasLivePair(rows: seq<Row<FundContactData>>, contactId: Guid, fundId: Guid) {
    exists i :: 0 <= i < |rows| && IsLivePair(rows[i], contactId, fundId)
  }

  /** The first live association of the pair, as an index. */
  function FindPair(rows: seq<Row<FundContactData>>, contactId: Guid, fundId: Guid): (r: Option<nat>)
    ensures r.Some? ==> r.value < |rows| && IsLivePair(rows[r.value], contactId, fundId)
    ensures r.None? <==> !HasLivePair(rows, contactId, fundId)
  {
    IndexWhere(rows, (x: Row<FundContactData>) => IsLivePair(x, contactId, fundId))
  }

  /** At most one live association per (contact, fund) pair. */
  predicate AtMostOneLivePair(rows: seq<Row<FundContactData>>) {
    forall i, j :: 0 <= i < j < |rows| && !rows[i].meta.isDeleted && !rows[j].meta.isDeleted ==>
      rows[i].data != rows[j].data
  }

  /** GetByContactAndFundIdAsync: the first live association of the pair. */
  function GetByContactAndFundId(rows: seq<Row<FundContactData>>, contactId: Guid, fundId: Guid, fault: Fault)
    : (r: Result<Row<FundContactData>>)
    ensures fault.Throws? ==> r == Result.InternalServerError(ServerError(fault.message))
    ensures fault.NoFault? ==> (r.IsSuccess() <==> HasLivePair(rows, contactId, fundId))
    ensures fault.NoFault? && r.IsSuccess() ==> r.value in rows && IsLivePair(r.value, contactId, fundId)
    ensures fault.NoFault? && r.IsFailure() ==> r == Result.NotFound(DomainErrors.FundContactNotFound())
  {
    if fault.Throws? then Result.InternalServerError(ServerError(fault.message))
    else
      var k := FindPair(rows, contactId, fundId);
      if k.None? then Result.NotFound(DomainErrors.FundContactNotFound()) else Result.Success(rows[k.value])
  }

  /** The live associations of a fund, in table order. */
  function LiveOfFund(rows: seq<Row<FundContactData>>, fundId: Guid): (r: seq<Row<FundContactData>>)
    ensures forall i :: 0 <= i < |r| ==> r[i] in rows && !r[i].meta.isDeleted && r[i].data.fundId == fundId
    ensures forall i :: 0 <= i < |rows| && !rows[i].meta.isDeleted && rows[i].data.fundId == fundId ==> rows[i] in r
  {
    Where(rows, (x: Row<FundContactData>) => !x.meta.isDeleted && x.data.fundId == fundId)
  }

  /** The live associations of a contact, in table order. */
  function LiveOfContact(rows: seq<Row<FundContactData>>, contactId: Guid): (r: seq<Row<FundContactData>>)
    ensures forall i :: 0 <= i < |r| ==> r[i] in rows && !r[i].meta.isDeleted && r[i].data.contactId == contactId
    ensures forall i :: 0 <= i < |rows| && !rows[i].meta.isDeleted && rows[i].data.contactId == contactId ==> rows[i] in r
  {
    Where(rows, (x: Row<FundContactData>) => !x.meta.isDeleted && x.data.contactId == contactId)
  }

  /** GetByFundIdAsync. */
  function GetByFundId(rows: seq<Row<FundContactData>>, fundId: Guid, fault: Fault)
    : (r: Result<seq<Row<FundContactData>>>)
    ensures fault.Throws? ==> r == Result.InternalServerError(ServerError(fault.message))
    ensures fault.NoFault? ==> r == Result.Success(LiveOfFund(rows, fundId))
  {
    if fault.Throws? then Result.InternalServerError(ServerError(fault.message))
    else Result.Success(LiveOfFund(rows, fundId))
  }

  /** GetByContactIdAsync. */
  function GetByContactId(rows: seq<Row<FundContactData>>, contactId: Guid, fault: Fault)
    : (r: Result<seq<Row<FundContactData>>>)
    ensures fault.Throws? ==> r == Result.InternalServerError(ServerError(fault.message))
    ensures fault.NoFault? ==> r == Result.Success(LiveOfContact(rows, contactId))
  {
    if fault.Throws? then Result.InternalServerError(ServerError(fault.message))
    else Result.Success(LiveOfContact(rows, contactId))
  }

  /** ExistsAsync(contactId, fundId). */
  function Exists(rows: seq<Row<FundContactData>>, contactId: Guid, fundId: Guid, fault: Fault): (r: Result<bool>)
    ensures fault.Throws? ==> r == Result.InternalServerError(ServerError(fault.message))
    ensures fault.NoFault? ==> r == Result.Success(HasLivePair(rows, contactId, fundId))
  {
    if fault.Throws? then Result.InternalServerError(ServerError(fault.message))
    else Result.Success(FindPair(rows, contactId, fundId).Some?)
  }

  /** The contact has a live association with some fund. */
  predicate HasAssignments(rows: seq<Row<FundContactData>>, contactId: Guid) {
    exists i :: 0 <= i < |rows| && !rows[i].meta.isDeleted && rows[i].data.contactId == contactId
  }

  /**
   * ContactHasFundAssignmentsAsync: whether the contact has a live
   * association with any fund.
   */
  function ContactHasFundAssignments(repo: BaseRepository<FundContactData>, contactId: Guid): (b: bool)
    reads repo
    ensures b <==> exists i :: 0 <= i < |repo.rows| && !repo.rows[i].meta.isDeleted && repo.rows[i].data.contactId == contactId
  {
    Linq.AnyAgreesWithSearches(repo.rows, (x: Row<FundContactData>) => !x.meta.isDeleted && x.data.contactId == contactId);
    IndexWhere(repo.rows, (x: Row<FundContactData>) => !x.meta.isDeleted && x.data.contactId == contactId).Some?
  }

  /** The assignment check agrees with the listing by contact. */
  lemma HasAssignmentsIffListed(repo: BaseRepository<FundContactData>, contactId: Guid)
    ensures ContactHasFundAssignments(repo, contactId) <==> LiveOfContact(repo.rows, contactId) != []
  {
    var listed := LiveOfContact(repo.rows, contactId);
    if listed != [] {
      var i :| 0 <= i < |repo.rows| && repo.rows[i] == listed[0];
    }
  }

  /** The table after DeleteAsync(contactId, fundId): the first live association of the pair is removed. */
  function RemovedPair(rows: seq<Row<FundContactData>>, contactId: Guid, fundId: Guid): (r: seq<Row<FundContactData>>)
    ensures !HasLivePair(rows, contactId, fundId) ==> r == rows
    ensures HasLivePair(rows, contactId, fundId) ==> |r| == |rows| - 1
    ensures forall x :: x in r ==> x in rows
  {
    var k := FindPair(rows, contactId, fundId);
    if k.None? then rows else Removed(rows, rows[k.value].meta.id)
  }

  /** With unique keys, removing a pair removes exactly the row found for it. */
  lemma RemovedPairRemovesThatRow(rows: seq<Row<FundContactData>>, contactId: Guid, fundId: Guid)
    requires UniqueIds(rows) && HasLivePair(rows, contactId, fundId)
    ensures var k := FindPair(rows, contactId, fundId).value;
            RemovedPair(rows, contactId, fundId) == rows[..k] + rows[k + 1..]
  {
    var k := FindPair(rows, contactId, fundId).value;
    FindUnique(rows, k, LiveOnly);
  }

  /** Under the one-live-pair invariant, a delete leaves no live association of the pair. */
  lemma DeletedPairIsGone(rows: seq<Row<FundContactData>>, contactId: Guid, fundId: Guid)
    requires UniqueIds(rows) && AtMostOneLivePair(rows)
    ensures !HasLivePair(RemovedPair(rows, contactId, fundId), contactId, fundId)
    ensures AtMostOneLivePair(RemovedPair(rows, contactId, fundId))
  {
    if HasLivePair(rows, contactId, fundId) {
      var k := FindPair(rows, contactId, fundId).value;
      RemovedPairRemovesThatRow(rows, contactId, fundId);
      var r := rows[..k] + rows[k + 1..];
      forall j | 0 <= j < |r| ensures !IsLivePair(r[j], contactId, fundId) {
        var j' := if j < k then j else j + 1;
        assert r[j] == rows[j'];
      }
      forall i, j | 0 <= i < j < |r| && !r[i].meta.isDeleted && !r[j].meta.isDeleted
        ensures r[i].data != r[j].data
      {
        var i' := if i < k then i else i + 1;
        var j' := if j < k then j else j + 1;
        assert r[i] == rows[i'] && r[j] == rows[j'];
      }
    }
  }

  /** Appending a live association of a pair that has none keeps the invariant. */
  lemma InsertPairKeepsInvariant(rows: seq<Row<FundContactData>>, row: Row<FundContactData>)
    requires AtMostOneLivePair(rows)
    requires !HasLivePair(rows, row.data.contactId, row.data.fundId)
    ensures AtMostOneLivePair(Inserted(rows, row))
  {
    var r := Inserted(rows, row);
    if r != rows {
      forall i, j | 0 <= i < j < |r| && !r[i].meta.isDeleted && !r[j].meta.isDeleted
        ensures r[i].data != r[j].data
      {
        if j == |rows| {
          assert !IsLivePair(rows[i], row.data.contactId, row.data.fundId);
        }
      }
    }
  }

  /**
   * DeleteAsync(contactId, fundId) on values: a hard delete of the first
   * live association of the pair.  A storage failure at either step gives
   * the same server error and leaves the table as it was.
   */
  function DeleteOutcome(rows: seq<Row<FundContactData>>, contactId: Guid, fundId: Guid, fault: Fault)
    : (o: Outcome<bool, FundContactData>)
    ensures fault.Throws? ==> o == Outcome(Result.InternalServerError(ServerError(fault.message)), rows)
    ensures fault.NoFault? && !HasLivePair(rows, contactId, fundId) ==>
              o == Outcome(Result.NotFound(DomainErrors.FundContactNotFound()), rows)
    ensures fault.NoFault? && HasLivePair(rows, contactId, fundId) ==>
              o == Outcome(Result.Success(true), RemovedPair(rows, contactId, fundId))
  {
    var fundContactResult := GetByContactAndFundId(rows, contactId, fundId, fault);
    if fundContactResult.IsFailure() then Outcome(Result.FromResult(fundContactResult), rows)
    else Outcome(Result.Success(true), Removed(rows, fundContactResult.value.meta.id))
  }

  method Delete(repo: BaseRepository<FundContactData>, contactId: Guid, fundId: Guid, fault: Fault) returns (r: Result<bool>)
    requires repo.Valid()
    modifies repo
    ensures repo.Valid()
    ensures Outcome(r, repo.rows) == DeleteOutcome(old(repo.rows), contactId, fundId, fault)
  {
    var fundContactResult := GetByContactAndFundId(repo.rows, contactId, fundId, fault);
    if fundContactResult.IsFailure() {
      return Result.FromResult(fundContactResult);
    }
    var fundContact := fundContactResult.value;
    repo.rows := Removed(repo.rows, fundContact.meta.id);
    r := Result.Success(true);
  }
}
