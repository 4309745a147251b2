/**
 * GetContactsByFundQueryHandler: the contacts linked to a fund, listed
 * through the fund's live associations.
 */
module FundContactQueries {
  import opened Wrappers
  import opened Common
  import opened Kernel
  import opened Entities
  import opened Persistence
  import opened Dtos
  import opened FundContactRepository
  import DomainErrors

  /**
   * The foreign key from associations to contacts: every live association
   * names a stored contact, whatever that contact's state.
   */
  predicate Linked(rows: seq<Row<FundContactData>>, contactRows: seq<Row<ContactData>>) {
    forall i :: 0 <= i < |rows| && !rows[i].meta.isDeleted ==> HasRow(contactRows, rows[i].data.contactId, AnyState)
  }

  /** The contact an association's navigation property loads: the row with its identifier, deleted or not. */
  function ContactOf(contactRows: seq<Row<ContactData>>, contactId: Guid): (c: Row<ContactData>)
    requires HasRow(contactRows, contactId, AnyState)
    ensures c in contactRows && c.meta.id == contactId
  {
    contactRows[Find(contactRows, contactId, AnyState).value]
  }

  /** `Select(fc => new FundContactListItemDto(fc.Contact...))` over a list of associations. */
  function ListItems(contactRows: seq<Row<ContactData>>, links: seq<Row<FundContactData>>): (r: seq<FundContactListItemDto>)
    requires forall i :: 0 <= i < |links| ==> HasRow(contactRows, links[i].data.contactId, AnyState)
    ensures |r| == |links|
    ensures forall i :: 0 <= i < |links| ==> r[i] == ListItemOf(ContactOf(contactRows, links[i].data.contactId))
  {
    seq(|links|, i requires 0 <= i < |links| => ListItemOf(ContactOf(contactRows, links[i].data.contactId)))
  }

  /** GetContactsByFundQueryHandler.Handle on the three tables' values. */
  function GetContactsByFund(fundEntity: string, fundRows: seq<Row<FundData>>, rows: seq<Row<FundContactData>>,
                             contactRows: seq<Row<ContactData>>, fundId: Guid, fundFault: Fault, listFault: Fault)
    : (r: Result<seq<FundContactListItemDto>>)
    requires Linked(rows, contactRows)
    ensures r.IsSuccess() <==> fundFault.NoFault? && HasRow(fundRows, fundId, LiveOnly) && listFault.NoFault?
    ensures fundFault.Throws? ==> r == Result.InternalServerError(DomainErrors.GeneralServerError(fundEntity, fundFault.message))
    ensures fundFault.NoFault? && !HasRow(fundRows, fundId, LiveOnly) ==> r == Result.NotFound(NotFoundOf(fundEntity))
    ensures fundFault.NoFault? && HasRow(fundRows, fundId, LiveOnly) && listFault.Throws? ==>
              r == Result.InternalServerError(ServerError(listFault.message))
    ensures r.IsSuccess() ==> |r.value| == |LiveOfFund(rows, fundId)|
    ensures r.IsSuccess() ==>
              forall i :: 0 <= i < |r.value| ==>
                var link := LiveOfFund(rows, fundId)[i];
                && r.value[i].id == link.data.contactId
                && exists c :: c in contactRows && c.meta.id == link.data.contactId && r.value[i] == ListItemOf(c)
  {
    var fundResult := GetById(fundEntity, fundRows, fundId, fundFault);
    if fundResult.IsFailure() then Result.FromResult(fundResult)
    else
      var fundContactsResult := GetByFundId(rows, fundId, listFault);
      if fundContactsResult.IsFailure() then Result.FromResult(fundContactsResult)
      else
        var links := fundContactsResult.value;
        assert forall i :: 0 <= i < |links| ==> HasRow(contactRows, links[i].data.contactId, AnyState) by {
          forall i | 0 <= i < |links| ensures HasRow(contactRows, links[i].data.contactId, AnyState) {
            var j :| 0 <= j < |rows| && rows[j] == links[i];
          }
        }
        Result.Success(ListItems(contactRows, links))
  }

  /**
   * Every live association of the fund is listed, including one whose
   * contact is soft-deleted: only the association's own flag is filtered.
   */
  lemma EveryLinkedContactListed(fundEntity: string, fundRows: seq<Row<FundData>>, rows: seq<Row<FundContactData>>,
                                 contactRows: seq<Row<ContactData>>, fundId: Guid, k: nat)
    requires Linked(rows, contactRows) && UniqueIds(contactRows)
    requires HasRow(fundRows, fundId, LiveOnly)
    requires k < |rows| && !rows[k].meta.isDeleted && rows[k].data.fundId == fundId
    ensures var r := GetContactsByFund(fundEntity, fundRows, rows, contactRows, fundId, NoFault, NoFault);
            && r.IsSuccess()
            && exists j :: 0 <= j < |contactRows| && contactRows[j].meta.id == rows[k].data.contactId &&
                           ListItemOf(contactRows[j]) in r.value
  {
    var r := GetContactsByFund(fundEntity, fundRows, rows, contactRows, fundId, NoFault, NoFault);
    var links := LiveOfFund(rows, fundId);
    assert rows[k] in links;
    var i :| 0 <= i < |links| && links[i] == rows[k];
    var c := ContactOf(contactRows, rows[k].data.contactId);
    assert r.value[i] == ListItemOf(c);
    var j :| 0 <= j < |contactRows| && contactRows[j] == c;
  }
}
