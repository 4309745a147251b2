/**
 * The data-transfer records of ContactManagement.Application.DTOs, and the
 * mappings the handlers use to build them from stored rows.
 */
module Dtos {
  import opened Wrappers
  import opened Kernel
  import opened Entities
  import opened Persistence

  datatype ContactDto = ContactDto(
    id: Guid,
    name: string,
    email: Option<string>,
    phoneNumber: Option<string>,
    createdAt: Time,
    updatedAt: Option<Time>)

  datatype FundDto = FundDto(id: Guid, name: string, createdAt: Time, updatedAt: Time)

  datatype FundContactDto = FundContactDto(
    id: Guid,
    contactId: Guid,
    fundId: Guid,
    contactName: string,
    fundName: string,
    createdAt: Time,
    updatedAt: Option<Time>)

  datatype FundContactListItemDto = FundContactListItemDto(
    id: Guid,
    name: string,
    email: Option<string>,
    phoneNumber: Option<string>)

  /** `new ContactDto(c.Id, c.Name.Value, c.Email?.Value, c.PhoneNumber?.Value, c.CreatedAt, c.UpdatedAt)`. */
  function ContactDtoOf(c: Row<ContactData>): ContactDto {
    ContactDto(c.meta.id, c.data.name.value, RawEmail(c.data.email), RawPhone(c.data.phoneNumber),
               c.meta.createdAt, Some(c.meta.updatedAt))
  }

  /** `new FundDto(f.Id, f.Name.Value, f.CreatedAt, f.UpdatedAt)`. */
  function FundDtoOf(f: Row<FundData>): FundDto {
    FundDto(f.meta.id, f.data.name.value, f.meta.createdAt, f.meta.updatedAt)
  }

  /** The association DTO, with the names of the contact and the fund it links. */
  function FundContactDtoOf(fc: Row<FundContactData>, contact: Row<ContactData>, fund: Row<FundData>): FundContactDto {
    FundContactDto(fc.meta.id, fc.data.contactId, fc.data.fundId, contact.data.name.value, fund.data.name.value,
                   fc.meta.createdAt, Some(fc.meta.updatedAt))
  }

  /** `new FundContactListItemDto(c.Id, c.Name.Value, c.Email?.Value, c.PhoneNumber?.Value)`. */
  function ListItemOf(c: Row<ContactData>): FundContactListItemDto {
    FundContactListItemDto(c.meta.id, c.data.name.value, RawEmail(c.data.email), RawPhone(c.data.phoneNumber))
  }
}
