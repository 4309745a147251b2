/**
 * BaseRepository<TEntity> of ContactManagement.Infrastructure.Repositories,
 * over an in-memory table.
 *
 * The table is a sequence of rows, each the persisted entity state and the
 * entity's own fields.  Every storage call that can throw takes a `Fault`:
 * `Throws(m)` is an exception with message `m` raised by the database, which
 * the repository turns into a result.
 */
module Persistence {
  import opened Wrappers
  import opened Common
  import opened Kernel
  import opened Linq
  import DomainErrors

  /** A stored entity: its lifecycle state and its payload. */
  datatype Row<D> = Row(meta: EntityState, data: D)

  /** Whether a storage call throws, and with which message. */
  datatype Fault = NoFault | Throws(message: string)

  /** The message of the exception a primary-key violation raises (its exact text is the database's). */
  const DuplicateKeyMessage := "The key of the entity is already present in the table."
  /** The message of the exception an update of an absent row raises (its exact text is the database's). */
  const MissingRowMessage := "The entity to update is not present in the table."

  /** Which lifecycle states a lookup admits. */
  datatype StateFilter = LiveOnly | DeletedOnly | AnyState {
    predicate Admits(m: EntityState) {
      match this
      case LiveOnly => !m.isDeleted
      case DeletedOnly => m.isDeleted
      case AnyState => true
    }
  }

  /** Some row has identifier `id` and a state `f` admits. */
  predicate HasRow<D>(rows: seq<Row<D>>, id: Guid, f: StateFilter) {
    exists i :: 0 <= i < |rows| && rows[i].meta.id == id && f.Admits(rows[i].meta)
  }

  /** `FirstOrDefault(e => e.Id == id && ...)`, as the index of the row found. */
  function Find<D>(rows: seq<Row<D>>, id: Guid, f: StateFilter): (r: Option<nat>)
    ensures r.Some? ==> r.value < |rows| && rows[r.value].meta.id == id && f.Admits(rows[r.value].meta)
    ensures r.Some? ==> forall j :: 0 <= j < r.value ==> !(rows[j].meta.id == id && f.Admits(rows[j].meta))
    ensures r.None? <==> !HasRow(rows, id, f)
  {
    IndexWhere(rows, (x: Row<D>) => x.meta.id == id && f.Admits(x.meta))
  }

  /** The primary key: no two rows share an identifier. */
  predicate UniqueIds<D>(rows: seq<Row<D>>) {
    forall i, j :: 0 <= i < j < |rows| ==> rows[i].meta.id != rows[j].meta.id
  }

  /** Every row satisfies the entity lifecycle invariant. */
  predicate AllConsistent<D>(rows: seq<Row<D>>) {
    forall i :: 0 <= i < |rows| ==> rows[i].meta.Consistent()
  }

  /** With unique identifiers, a lookup finds the one row with that identifier when its state is admitted. */
  lemma FindUnique<D>(rows: seq<Row<D>>, i: nat, f: StateFilter)
    requires UniqueIds(rows) && i < |rows|
    ensures Find(rows, rows[i].meta.id, f) == (if f.Admits(rows[i].meta) then Some(i) else None)
  {
    var r := Find(rows, rows[i].meta.id, f);
    if r.Some? {
      assert r.value == i;
    }
  }

  /** The rows a listing returns: all of them, or the live ones. */
  function Visible<D>(rows: seq<Row<D>>, includeDeleted: bool): (r: seq<Row<D>>)
    ensures includeDeleted ==> r == rows
    ensures forall i :: 0 <= i < |r| ==> r[i] in rows && (includeDeleted || !r[i].meta.isDeleted)
    ensures forall i :: 0 <= i < |rows| && (includeDeleted || !rows[i].meta.isDeleted) ==> rows[i] in r
  {
    if includeDeleted then rows else Where(rows, (x: Row<D>) => !x.meta.isDeleted)
  }

  /** The table after an insertion: the row is appended unless its key is taken. */
  function Inserted<D>(rows: seq<Row<D>>, row: Row<D>): (r: seq<Row<D>>)
    ensures HasRow(rows, row.meta.id, AnyState) ==> r == rows
    ensures !HasRow(rows, row.meta.id, AnyState) ==> r == rows + [row]
    ensures UniqueIds(rows) ==> UniqueIds(r)
  {
    if Find(rows, row.meta.id, AnyState).Some? then rows else rows + [row]
  }

  /** The table after `Update`: the row with the same key is replaced. */
  function Replaced<D>(rows: seq<Row<D>>, row: Row<D>): (r: seq<Row<D>>)
    ensures |r| == |rows|
    ensures forall j :: 0 <= j < |rows| ==> r[j].meta.id == rows[j].meta.id
    ensures Find(rows, row.meta.id, AnyState).Some? ==> r[Find(rows, row.meta.id, AnyState).value] == row
    ensures forall j :: 0 <= j < |rows| && rows[j].meta.id != row.meta.id ==> r[j] == rows[j]
    ensures UniqueIds(rows) ==> UniqueIds(r)
  {
    var k := Find(rows, row.meta.id, AnyState);
    if k.None? then rows
    else
      var r := rows[k.value := row];
      assert forall j :: 0 <= j < |rows| ==> r[j].meta.id == rows[j].meta.id;
      r
  }

  /** The table after `Remove` of the live row with identifier `id` (a hard delete). */
  function Removed<D>(rows: seq<Row<D>>, id: Guid): (r: seq<Row<D>>)
    ensures Find(rows, id, LiveOnly).None? ==> r == rows
    ensures Find(rows, id, LiveOnly).Some? ==>
              var k := Find(rows, id, LiveOnly).value; r == rows[..k] + rows[k + 1..]
    ensures UniqueIds(rows) ==> UniqueIds(r) && !HasRow(r, id, LiveOnly)
  {
    var k := Find(rows, id, LiveOnly);
    if k.None? then rows
    else
      RemoveAtKeepsKeysApart(rows, k.value);
      rows[..k.value] + rows[k.value + 1..]
  }

  /** Removing one row from a table with unique keys keeps them unique and drops that key. */
  lemma RemoveAtKeepsKeysApart<D>(rows: seq<Row<D>>, k: nat)
    requires k < |rows|
    ensures var r := rows[..k] + rows[k + 1..];
            UniqueIds(rows) ==> UniqueIds(r) && forall i :: 0 <= i < |r| ==> r[i].meta.id != rows[k].meta.id
  {
    var r := rows[..k] + rows[k + 1..];
    if UniqueIds(rows) {
      forall i, j | 0 <= i < j < |r| ensures r[i].meta.id != r[j].meta.id {
        var i' := if i < k then i else i + 1;
        var j' := if j < k then j else j + 1;
        assert r[i] == rows[i'] && r[j] == rows[j'];
      }
      forall i | 0 <= i < |r| ensures r[i].meta.id != rows[k].meta.id {
        var i' := if i < k then i else i + 1;
        assert r[i] == rows[i'];
      }
    }
  }

  /** The table after `SoftDelete` of the row with identifier `id`, whatever its state. */
  function SoftDeletedRows<D>(rows: seq<Row<D>>, id: Guid, now: Time): (r: seq<Row<D>>)
    ensures |r| == |rows|
    ensures forall j :: 0 <= j < |rows| ==> r[j].meta.id == rows[j].meta.id && r[j].data == rows[j].data
    ensures Find(rows, id, AnyState).Some? ==>
              var k := Find(rows, id, AnyState).value;
              r == rows[k := Row(SoftDeleted(rows[k].meta, now), rows[k].data)]
    ensures Find(rows, id, AnyState).None? ==> r == rows
    ensures UniqueIds(rows) ==> UniqueIds(r)
    ensures AllConsistent(rows) ==> AllConsistent(r)
  {
    var k := Find(rows, id, AnyState);
    if k.None? then rows
    else rows[k.value := Row(SoftDeleted(rows[k.value].meta, now), rows[k.value].data)]
  }

  /** The table after `Restore` of the deleted row with identifier `id`. */
  function RestoredRows<D>(rows: seq<Row<D>>, id: Guid, now: Time): (r: seq<Row<D>>)
    ensures |r| == |rows|
    ensures forall j :: 0 <= j < |rows| ==> r[j].meta.id == rows[j].meta.id && r[j].data == rows[j].data
    ensures Find(rows, id, DeletedOnly).Some? ==>
              var k := Find(rows, id, DeletedOnly).value;
              r == rows[k := Row(Restored(rows[k].meta, now), rows[k].data)]
    ensures Find(rows, id, DeletedOnly).None? ==> r == rows
    ensures UniqueIds(rows) ==> UniqueIds(r)
    ensures AllConsistent(rows) ==> AllConsistent(r)
  {
    var k := Find(rows, id, DeletedOnly);
    if k.None? then rows
    else rows[k.value := Row(Restored(rows[k.value].meta, now), rows[k.value].data)]
  }

  /** After a soft delete the row is hidden from `GetById` but still found by `Restore`. */
  lemma SoftDeleteHidesRow<D>(rows: seq<Row<D>>, id: Guid, now: Time)
    requires UniqueIds(rows) && HasRow(rows, id, AnyState)
    ensures !HasRow(SoftDeletedRows(rows, id, now), id, LiveOnly)
    ensures HasRow(SoftDeletedRows(rows, id, now), id, DeletedOnly)
  {
    var k := Find(rows, id, AnyState).value;
    var r := SoftDeletedRows(rows, id, now);
    assert r[k].meta.isDeleted;
    FindUnique(r, k, LiveOnly);
  }

  /** A soft delete of an already deleted row changes nothing. */
  lemma SoftDeleteOfDeletedRowIsNoOp<D>(rows: seq<Row<D>>, id: Guid, now: Time)
    requires UniqueIds(rows) && HasRow(rows, id, DeletedOnly)
    ensures SoftDeletedRows(rows, id, now) == rows
  {
    var k := Find(rows, id, AnyState).value;
    FindUnique(rows, k, DeletedOnly);
    assert rows[k := Row(SoftDeleted(rows[k].meta, now), rows[k].data)] == rows;
  }

  /** Soft delete is idempotent on the table. */
  lemma SoftDeleteRowsIdempotent<D>(rows: seq<Row<D>>, id: Guid, t1: Time, t2: Time)
    requires UniqueIds(rows)
    ensures SoftDeletedRows(SoftDeletedRows(rows, id, t1), id, t2) == SoftDeletedRows(rows, id, t1)
  {
    if HasRow(rows, id, AnyState) {
      SoftDeleteHidesRow(rows, id, t1);
      SoftDeleteOfDeletedRowIsNoOp(SoftDeletedRows(rows, id, t1), id, t2);
    }
  }

  /** After a restore the row is visible to `GetById` again. */
  lemma RestoreRevivesRow<D>(rows: seq<Row<D>>, id: Guid, now: Time)
    requires UniqueIds(rows) && HasRow(rows, id, DeletedOnly)
    ensures HasRow(RestoredRows(rows, id, now), id, LiveOnly)
  {
    var k := Find(rows, id, DeletedOnly).value;
    var r := RestoredRows(rows, id, now);
    assert r[k].meta.id == id && !r[k].meta.isDeleted;
  }

  /** Restoring a soft-deleted live row gives the table back with only its `UpdatedAt` moved. */
  lemma RestoreUndoesSoftDeleteRows<D>(rows: seq<Row<D>>, i: nat, t1: Time, t2: Time)
    requires UniqueIds(rows) && i < |rows| && !rows[i].meta.isDeleted && rows[i].meta.Consistent()
    ensures var id := rows[i].meta.id;
            RestoredRows(SoftDeletedRows(rows, id, t1), id, t2)
              == rows[i := Row(Touched(rows[i].meta, t2), rows[i].data)]
  {
    var id := rows[i].meta.id;
    FindUnique(rows, i, AnyState);
    var s := SoftDeletedRows(rows, id, t1);
    assert s[i].meta.isDeleted;
    FindUnique(s, i, DeletedOnly);
    RestoreUndoesSoftDelete(rows[i].meta, t1, t2);
  }

  /** A hard delete removes the row entirely: it cannot be restored or found again. */
  lemma RemovedRowIsGone<D>(rows: seq<Row<D>>, id: Guid)
    requires UniqueIds(rows) && HasRow(rows, id, LiveOnly)
    ensures !HasRow(Removed(rows, id), id, AnyState)
    ensures |Removed(rows, id)| == |rows| - 1
  {
    var k := Find(rows, id, LiveOnly).value;
    var r := Removed(rows, id);
    forall j | 0 <= j < |r| ensures r[j].meta.id != id {
      var j' := if j < k then j else j + 1;
      assert r[j] == rows[j'];
    }
  }

  /** With unique identifiers, a live row is what `GetById` returns for its identifier. */
  lemma GetByIdFindsRow<D>(entityName: string, rows: seq<Row<D>>, i: nat)
    requires UniqueIds(rows) && i < |rows| && !rows[i].meta.isDeleted
    ensures GetById(entityName, rows, rows[i].meta.id, NoFault) == Result.Success(rows[i])
  {
    FindUnique(rows, i, LiveOnly);
  }

  /** A freshly inserted live row is what the next lookup by its identifier finds. */
  lemma InsertedRowIsFound<D>(rows: seq<Row<D>>, row: Row<D>)
    requires !HasRow(rows, row.meta.id, AnyState) && !row.meta.isDeleted
    ensures Find(Inserted(rows, row), row.meta.id, LiveOnly) == Some(|rows|)
  {
    var r := Inserted(rows, row);
    assert r[|rows|] == row;
    assert HasRow(r, row.meta.id, LiveOnly);
  }

  /** The error of a lookup by identifier that finds nothing. */
  function NotFoundOf(entityName: string): Error {
    Error("NotFound", entityName + " not found")
  }

  /** GetByIdAsync: the first live row with that identifier. */
  function GetById<D>(entityName: string, rows: seq<Row<D>>, id: Guid, fault: Fault): (r: Result<Row<D>>)
    ensures fault.Throws? ==> r == Result.InternalServerError(DomainErrors.GeneralServerError(entityName, fault.message))
    ensures fault.NoFault? ==> (r.IsSuccess() <==> HasRow(rows, id, LiveOnly))
    ensures fault.NoFault? && r.IsSuccess() ==> r.value in rows && r.value.meta.id == id && !r.value.meta.isDeleted
    ensures fault.NoFault? && r.IsFailure() ==> r == Result.NotFound(NotFoundOf(entityName))
  {
    if fault.Throws? then Result.InternalServerError(DomainErrors.GeneralServerError(entityName, fault.message))
    else
      var k := Find(rows, id, LiveOnly);
      if k.None? then Result.NotFound(NotFoundOf(entityName)) else Result.Success(rows[k.value])
  }

  /** What a command returns, together with the table it leaves behind. */
  datatype Outcome<T, D> = Outcome(result: Result<T>, rows: seq<Row<D>>)

  /** What a creating command returns, the table it leaves and the next identifier to draw. */
  datatype Creation<T, D> = Creation(result: Result<T>, rows: seq<Row<D>>, next: Guid)

  /** Every stored identifier was drawn before `next`, so `next` and later ones are still free. */
  predicate IdsBelow<D>(rows: seq<Row<D>>, next: Guid) {
    forall i :: 0 <= i < |rows| ==> rows[i].meta.id < next
  }

  /** An identifier not yet drawn is not taken, and appending its row keeps the bound for the next one. */
  lemma FreshIdIsFree<D>(rows: seq<Row<D>>, row: Row<D>)
    requires IdsBelow(rows, row.meta.id)
    ensures !HasRow(rows, row.meta.id, AnyState)
    ensures IdsBelow(rows + [row], row.meta.id + 1)
  {
  }

  /** AddAsync, on values: the result and the table a call leaves. */
  function AddOutcome<D>(entityName: string, rows: seq<Row<D>>, row: Row<D>, fault: Fault): (o: Outcome<Row<D>, D>)
    ensures o.result.IsSuccess() <==> fault.NoFault? && !HasRow(rows, row.meta.id, AnyState)
    ensures o.result.IsSuccess() ==> o.result.value == row && o.rows == rows + [row]
    ensures o.result.IsFailure() ==> o.rows == rows && o.result.StatusCode() == HttpStatusCode.InternalServerError
    ensures fault.Throws? ==> o.result.ErrorOf() == Some(DomainErrors.GeneralServerError(entityName, fault.message))
  {
    if fault.Throws? then Outcome(Result.InternalServerError(DomainErrors.GeneralServerError(entityName, fault.message)), rows)
    else if HasRow(rows, row.meta.id, AnyState) then
      Outcome(Result.InternalServerError(DomainErrors.GeneralServerError(entityName, DuplicateKeyMessage)), rows)
    else Outcome(Result.Success(row), rows + [row])
  }

  class BaseRepository<D> {
    /** `typeof(TEntity).Name`, used in error codes and messages. */
    const entityName: string
    var rows: seq<Row<D>>

    predicate Valid()
      reads this
    {
      UniqueIds(rows)
    }

    constructor (entityName: string)
      ensures this.entityName == entityName && rows == [] && Valid()
    {
      this.entityName := entityName;
      rows := [];
    }

    /** The error every storage exception becomes. */
    function ServerError(message: string): (e: Error)
      ensures e == DomainErrors.GeneralServerError(entityName, message)
    {
      DomainErrors.GeneralServerError(entityName, message)
    }

    /** AddAsync: the row is stored and returned, unless the database throws. */
    method Add(row: Row<D>, fault: Fault) returns (r: Result<Row<D>>)
      requires Valid()
      modifies this
      ensures Valid()
      ensures Outcome(r, rows) == AddOutcome(entityName, old(rows), row, fault)
    {
      if fault.Throws? {
        return Result.InternalServerError(ServerError(fault.message));
      }
      if Find(rows, row.meta.id, AnyState).Some? {
        return Result.InternalServerError(ServerError(DuplicateKeyMessage));
      }
      rows := rows + [row];
      r := Result.Success(row);
    }

    /** GetAllAsync: every row, or only the live ones, in table order. */
    function GetAll(includeDeleted: bool, fault: Fault): (r: Result<seq<Row<D>>>)
      reads this
      ensures fault.Throws? ==> r == Result.InternalServerError(ServerError(fault.message))
      ensures fault.NoFault? ==> r.IsSuccess() && r.value == Visible(rows, includeDeleted)
    {
      if fault.Throws? then Result.InternalServerError(ServerError(fault.message))
      else Result.Success(Visible(rows, includeDeleted))
    }

    /**
     * UpdateAsync: the entity's `UpdatedAt` is moved first, in place, and
     * then the row with its key is overwritten with its state and payload.
     */
    method Update(e: Entity, data: D, now: Time, fault: Fault) returns (r: Result<Row<D>>)
      requires Valid()
      modifies this, e
      ensures Valid()
      ensures e.State() == Touched(old(e.State()), now)
      ensures fault.Throws? ==> r == Result.InternalServerError(ServerError(fault.message)) && rows == old(rows)
      ensures fault.NoFault? && !HasRow(old(rows), e.id, AnyState) ==>
                r == Result.InternalServerError(ServerError(MissingRowMessage)) && rows == old(rows)
      ensures fault.NoFault? && HasRow(old(rows), e.id, AnyState) ==>
                r == Result.Success(Row(e.State(), data)) && rows == Replaced(old(rows), Row(e.State(), data))
    {
      e.UpdateTimestamps(now);
      if fault.Throws? {
        return Result.InternalServerError(ServerError(fault.message));
      }
      if Find(rows, e.id, AnyState).None? {
        return Result.InternalServerError(ServerError(MissingRowMessage));
      }
      var row := Row(e.State(), data);
      rows := Replaced(rows, row);
      r := Result.Success(row);
    }

    /**
     * DeleteAsync: a hard delete of the live row.  A failed lookup keeps
     * NotFound and turns any other failure into BadRequest.
     */
    method Delete(id: Guid, lookupFault: Fault, saveFault: Fault) returns (r: Result<bool>)
      requires Valid()
      modifies this
      ensures Valid()
      ensures lookupFault.Throws? ==>
                r == Result.BadRequest(ServerError(lookupFault.message)) && rows == old(rows)
      ensures lookupFault.NoFault? && !HasRow(old(rows), id, LiveOnly) ==>
                r == Result.NotFound(NotFoundOf(entityName)) && rows == old(rows)
      ensures lookupFault.NoFault? && HasRow(old(rows), id, LiveOnly) && saveFault.Throws? ==>
                r == Result.InternalServerError(ServerError(saveFault.message)) && rows == old(rows)
      ensures lookupFault.NoFault? && HasRow(old(rows), id, LiveOnly) && saveFault.NoFault? ==>
                r == Result.Success(true) && rows == Removed(old(rows), id)
    {
      var entityResult := GetById(entityName, rows, id, lookupFault);
      if entityResult.IsFailure() {
        if entityResult.StatusCode() == HttpStatusCode.NotFound {
          return Result.NotFound(entityResult.error);
        }
        return Result.BadRequest(entityResult.error);
      }
      if saveFault.Throws? {
        return Result.InternalServerError(ServerError(saveFault.message));
      }
      rows := Removed(rows, id);
      r := Result.Success(true);
    }

    /** ExistsAsync: whether a row with that identifier exists, live or (optionally) deleted. */
    function Exists(id: Guid, includeDeleted: bool, fault: Fault): (r: Result<bool>)
      reads this
      ensures fault.Throws? ==> r == Result.InternalServerError(ServerError(fault.message))
      ensures fault.NoFault? ==> r.IsSuccess()
      ensures fault.NoFault? ==>
                (r.value <==> exists i :: 0 <= i < |rows| && rows[i].meta.id == id && (includeDeleted || !rows[i].meta.isDeleted))
    {
      if fault.Throws? then Result.InternalServerError(ServerError(fault.message))
      else Result.Success(HasRow(rows, id, if includeDeleted then AnyState else LiveOnly))
    }

    /**
     * SoftDeleteAsync: looks the row up whatever its state; an already
     * deleted row is reported as success without a save.
     */
    method SoftDelete(id: Guid, now: Time, fault: Fault) returns (r: Result<bool>)
      requires Valid()
      modifies this
      ensures Valid()
      ensures fault.Throws? ==> r == Result.InternalServerError(ServerError(fault.message)) && rows == old(rows)
      ensures fault.NoFault? && !HasRow(old(rows), id, AnyState) ==>
                r == Result.NotFound(NotFoundOf(entityName)) && rows == old(rows)
      ensures fault.NoFault? && HasRow(old(rows), id, AnyState) ==>
                r == Result.Success(true) && rows == SoftDeletedRows(old(rows), id, now)
    {
      if fault.Throws? {
        return Result.InternalServerError(ServerError(fault.message));
      }
      var k := Find(rows, id, AnyState);
      if k.None? {
        return Result.NotFound(NotFoundOf(entityName));
      }
      var row := rows[k.value];
      if row.meta.isDeleted {
        assert SoftDeleted(row.meta, now) == row.meta;
        assert rows[k.value := Row(SoftDeleted(row.meta, now), row.data)] == rows;
        return Result.Success(true);
      }
      var entity := new Entity.Load(row.meta);
      entity.SoftDelete(now);
      rows := rows[k.value := Row(entity.State(), row.data)];
      r := Result.Success(true);
    }

    /** RestoreAsync: only a deleted row is restored. */
    method Restore(id: Guid, now: Time, fault: Fault) returns (r: Result<bool>)
      requires Valid()
      modifies this
      ensures Valid()
      ensures fault.Throws? ==> r == Result.InternalServerError(ServerError(fault.message)) && rows == old(rows)
      ensures fault.NoFault? && !HasRow(old(rows), id, DeletedOnly) ==>
                r == Result.NotFound(Error("NotFound", entityName + " not found or not deleted")) && rows == old(rows)
      ensures fault.NoFault? && HasRow(old(rows), id, DeletedOnly) ==>
                r == Result.Success(true) && rows == RestoredRows(old(rows), id, now)
    {
      if fault.Throws? {
        return Result.InternalServerError(ServerError(fault.message));
      }
      var k := Find(rows, id, DeletedOnly);
      if k.None? {
        return Result.NotFound(Error("NotFound", entityName + " not found or not deleted"));
      }
      var row := rows[k.value];
      var entity := new Entity.Load(row.meta);
      entity.Restore(now);
      rows := rows[k.value := Row(entity.State(), row.data)];
      r := Result.Success(true);
    }
  }
}
