/**
 * The fund commands of ContactManagement.Application.Features.Funds:
 * create one fund, and create a batch of funds with partial success.
 */
module FundCommands {
  import opened Wrappers
  import opened Common
  import opened Kernel
  import opened Text
  import opened ValueObjects
  import opened Entities
  import opened Persistence
  import opened FundRepository
  import opened Dtos
  import DomainErrors

  // ---------------------------------------------------------------- create one

  /** CreateFundCommandHandler.Handle on values; `id` is the identifier `Fund.Create` would draw. */
  function CreateFundOutcome(entityName: string, rows: seq<Row<FundData>>, id: Guid, now: Time, name: string,
                             existsFault: Fault, addFault: Fault)
    : Creation<FundDto, FundData>
  {
    if existsFault.Throws? then
      Creation(Result.InternalServerError(DomainErrors.GeneralServerError(entityName, existsFault.message)), rows, id)
    else if NameTaken(rows, Some(name)) then Creation(Result.Conflict(DomainErrors.FundAlreadyExists()), rows, id)
    else
      var fundResult := ValidateFund(name);
      if fundResult.IsFailure() then Creation(Result.FromResult(fundResult), rows, id)
      else
        var addResult := AddOutcome(entityName, rows, Row(Created(id, now), fundResult.value), addFault);
        if addResult.result.IsFailure() then Creation(Result.FromResult(addResult.result), addResult.rows, id + 1)
        else Creation(Result.Success(FundDtoOf(addResult.result.value)), addResult.rows, id + 1)
  }

  method CreateFund(funds: BaseRepository<FundData>, ids: IdSource, now: Time, name: string,
                    existsFault: Fault, addFault: Fault)
    returns (r: Result<FundDto>)
    requires funds.Valid() && ids.Valid()
    modifies funds, ids
    ensures funds.Valid() && ids.Valid()
    ensures Creation(r, funds.rows, ids.next)
              == CreateFundOutcome(funds.entityName, old(funds.rows), old(ids.next), now, name, existsFault, addFault)
  {
    var existsResult := ExistsByName(funds, Some(name), existsFault);
    if existsResult.IsFailure() {
      return Result.FromResult(existsResult);
    }
    if existsResult.value {
      return Result.Conflict(DomainErrors.FundAlreadyExists());
    }
    var fundResult := Fund.Create(ids, now, name);
    if fundResult.IsFailure() {
      return Result.FromResult(fundResult);
    }
    var fund := fundResult.value;
    var addResult := funds.Add(Row(fund.base.State(), fund.Data()), addFault);
    if addResult.IsFailure() {
      return Result.FromResult(addResult);
    }
    r := Result.Success(FundDtoOf(addResult.value));
  }

  /**
   * The duplicate-name check comes first, so it decides even for an invalid
   * name; every failure leaves the table and the identifiers as they were,
   * except that a failed insertion has already drawn its identifier.
   */
  lemma CreateFundChecksInOrder(entityName: string, rows: seq<Row<FundData>>, id: Guid, now: Time, name: string,
                                existsFault: Fault, addFault: Fault)
    ensures var o := CreateFundOutcome(entityName, rows, id, now, name, existsFault, addFault);
            && (o.result.IsFailure() ==> o.rows == rows)
            && (existsFault.Throws? ==>
                  o.result.StatusCode() == HttpStatusCode.InternalServerError && o.next == id)
            && (existsFault.NoFault? && NameTaken(rows, Some(name)) ==>
                  o.result.StatusCode() == HttpStatusCode.Conflict && o.next == id)
            && (existsFault.NoFault? && !NameTaken(rows, Some(name)) && ValidateFund(name).IsFailure() ==>
                  o.result.ErrorOf() == Name.Create(Some(name)).ErrorOf()
                  && o.result.StatusCode() == HttpStatusCode.BadRequest && o.next == id)
  {
  }

  /** A blank name is rejected with `NameRequired` when no stored fund has a blank name. */
  lemma CreateFundRejectsBlankName(entityName: string, rows: seq<Row<FundData>>, id: Guid, now: Time, name: string,
                                   addFault: Fault)
    requires AllNamesValid(rows) && IsBlank(name)
    ensures var o := CreateFundOutcome(entityName, rows, id, now, name, NoFault, addFault);
            o.result == Result.BadRequest(DomainErrors.ContactNameRequired) && o.rows == rows && o.next == id
  {
    BlankQueryMatchesNothing(rows, Some(name));
  }

  /** A new valid name with a fresh identifier adds exactly one fund, and the DTO echoes it. */
  lemma CreateFundStoresFund(entityName: string, rows: seq<Row<FundData>>, id: Guid, now: Time, name: string)
    requires UniqueIds(rows) && IdsBelow(rows, id) && AllNamesValid(rows)
    requires !NameTaken(rows, Some(name)) && ValidateFund(name).IsSuccess()
    ensures var o := CreateFundOutcome(entityName, rows, id, now, name, NoFault, NoFault);
            && o.result == Result.Success(FundDto(id, name, now, now))
            && o.rows == rows + [Row(Created(id, now), FundData(Name(name)))]
            && o.next == id + 1
            && UniqueIds(o.rows) && IdsBelow(o.rows, o.next) && AllNamesValid(o.rows)
            && GetById(entityName, o.rows, id, NoFault) == Result.Success(o.rows[|rows|])
  {
    var row := Row(Created(id, now), ValidateFund(name).value);
    FreshIdIsFree(rows, row);
    var o := CreateFundOutcome(entityName, rows, id, now, name, NoFault, NoFault);
    assert o.rows == Inserted(rows, row);
    GetByIdFindsRow(entityName, o.rows, |rows|);
  }

  /** Once a fund is created, its name is taken: another create with the same name, in any case or padding, is a Conflict. */
  lemma SecondCreateConflicts(entityName: string, rows: seq<Row<FundData>>, id: Guid, now: Time, name: string,
                              addFault: Fault, id2: Guid, now2: Time, name2: string, addFault2: Fault)
    requires CreateFundOutcome(entityName, rows, id, now, name, NoFault, addFault).result.IsSuccess()
    requires Lower(Trim(name2)) == Lower(Trim(name))
    ensures var o := CreateFundOutcome(entityName, rows, id, now, name, NoFault, addFault);
            var o2 := CreateFundOutcome(entityName, o.rows, id2, now2, name2, NoFault, addFault2);
            o2.result == Result.Conflict(DomainErrors.FundAlreadyExists()) && o2.rows == o.rows
  {
    CreatedFundIsAppended(entityName, rows, id, now, name, addFault);
    AppendedNameIsTaken(rows, Row(Created(id, now), FundData(Name(name))), name2);
  }

  /** A successful create appends the live fund with the drawn identifier and the name as given. */
  lemma CreatedFundIsAppended(entityName: string, rows: seq<Row<FundData>>, id: Guid, now: Time, name: string,
                              addFault: Fault)
    requires CreateFundOutcome(entityName, rows, id, now, name, NoFault, addFault).result.IsSuccess()
    ensures CreateFundOutcome(entityName, rows, id, now, name, NoFault, addFault).rows
            == rows + [Row(Created(id, now), FundData(Name(name)))]
  {
  }

  /** The name of a live fund appended to the table is taken, in any case or padding. */
  lemma AppendedNameIsTaken(rows: seq<Row<FundData>>, row: Row<FundData>, name2: string)
    requires !row.meta.isDeleted && Lower(Trim(name2)) == Lower(Trim(row.data.name.value))
    ensures NameTaken(rows + [row], Some(name2))
  {
    assert (rows + [row])[|rows|] == row;
  }

  // ---------------------------------------------------------------- create a batch

  /**
   * The state of the batch loop: still running, with the table, the next
   * identifier and the DTOs collected so far, or aborted by a failing
   * duplicate-name check, with the error it returns.
   */
  datatype Batch =
    | Running(rows: seq<Row<FundData>>, next: Guid, created: seq<FundDto>)
    | Aborted(rows: seq<Row<FundData>>, next: Guid, error: Error)

  /** One iteration of the loop for `name`: skip, add, or abort. */
  function Step(entityName: string, b: Batch, now: Time, name: string, existsFault: Fault, addFault: Fault): Batch {
    match b
    case Aborted(_, _, _) => b
    case Running(rows, next, created) =>
      if existsFault.Throws? then Aborted(rows, next, DomainErrors.GeneralServerError(entityName, existsFault.message))
      else if NameTaken(rows, Some(name)) then b
      else
        var fundResult := ValidateFund(name);
        if fundResult.IsFailure() then b
        else
          var addResult := AddOutcome(entityName, rows, Row(Created(next, now), fundResult.value), addFault);
          if addResult.result.IsFailure() then Running(rows, next + 1, created)
          else Running(addResult.rows, next + 1, created + [FundDtoOf(addResult.result.value)])
  }

  /** The loop run over all of `names`, in order. */
  function Run(entityName: string, rows: seq<Row<FundData>>, next: Guid, now: Time,
               names: seq<string>, existsFaults: seq<Fault>, addFaults: seq<Fault>): Batch
    requires |existsFaults| == |names| && |addFaults| == |names|
    decreases |names|
  {
    if names == [] then Running(rows, next, [])
    else
      var n := |names| - 1;
      Step(entityName, Run(entityName, rows, next, now, names[..n], existsFaults[..n], addFaults[..n]),
           now, names[n], existsFaults[n], addFaults[n])
  }

  /** CreateMultipleFundsCommandHandler.Handle on values. */
  function CreateMultipleFundsOutcome(entityName: string, rows: seq<Row<FundData>>, next: Guid, now: Time,
                                      names: seq<string>, existsFaults: seq<Fault>, addFaults: seq<Fault>)
    : Creation<seq<FundDto>, FundData>
    requires |existsFaults| == |names| && |addFaults| == |names|
  {
    if |names| == 0 then Creation(Result.ValidationError(DomainErrors.GeneralValidationError), rows, next)
    else
      match Run(entityName, rows, next, now, names, existsFaults, addFaults)
      case Aborted(rows', next', e) => Creation(Result.InternalServerError(e), rows', next')
      case Running(rows', next', created) =>
        if created == [] then Creation(Result.ValidationError(DomainErrors.GeneralValidationError), rows', next')
        else Creation(Result.Success(created), rows', next')
  }

  /** Extending the input by one name is one more step. */
  lemma RunSnoc(entityName: string, rows: seq<Row<FundData>>, next: Guid, now: Time,
                names: seq<string>, existsFaults: seq<Fault>, addFaults: seq<Fault>, k: nat)
    requires |existsFaults| == |names| && |addFaults| == |names| && k < |names|
    ensures Run(entityName, rows, next, now, names[..k + 1], existsFaults[..k + 1], addFaults[..k + 1])
            == Step(entityName, Run(entityName, rows, next, now, names[..k], existsFaults[..k], addFaults[..k]),
                    now, names[k], existsFaults[k], addFaults[k])
  {
    assert names[..k + 1][..k] == names[..k];
    assert existsFaults[..k + 1][..k] == existsFaults[..k];
    assert addFaults[..k + 1][..k] == addFaults[..k];
  }

  /** Once aborted, the rest of the input is not looked at. */
  lemma {:induction false} AbortedRunStops(entityName: string, rows: seq<Row<FundData>>, next: Guid, now: Time,
                                           names: seq<string>, existsFaults: seq<Fault>, addFaults: seq<Fault>, k: nat)
    requires |existsFaults| == |names| && |addFaults| == |names| && k <= |names|
    requires Run(entityName, rows, next, now, names[..k], existsFaults[..k], addFaults[..k]).Aborted?
    ensures Run(entityName, rows, next, now, names, existsFaults, addFaults)
            == Run(entityName, rows, next, now, names[..k], existsFaults[..k], addFaults[..k])
    decreases |names| - k
  {
    if k < |names| {
      RunSnoc(entityName, rows, next, now, names, existsFaults, addFaults, k);
      AbortedRunStops(entityName, rows, next, now, names, existsFaults, addFaults, k + 1);
    } else {
      assert names[..k] == names && existsFaults[..k] == existsFaults && addFaults[..k] == addFaults;
    }
  }

  /**
   * A batch item does what CreateFund does, except that only a failing
   * duplicate-name check stops the batch: a taken name, an invalid name or
   * a failed insertion only leaves the item out.
   */
  lemma StepIsCreateFund(entityName: string, rows: seq<Row<FundData>>, next: Guid, created: seq<FundDto>, now: Time,
                         name: string, existsFault: Fault, addFault: Fault)
    ensures var s := Step(entityName, Running(rows, next, created), now, name, existsFault, addFault);
            var o := CreateFundOutcome(entityName, rows, next, now, name, existsFault, addFault);
            s == if existsFault.Throws? then Aborted(rows, next, o.result.error)
                 else Running(o.rows, o.next, created + if o.result.IsSuccess() then [o.result.value] else [])
  {
  }

  /** One more name processed from a running batch is one create, as `StepIsCreateFund` states. */
  lemma RunStep(entityName: string, rows: seq<Row<FundData>>, next: Guid, now: Time,
                names: seq<string>, existsFaults: seq<Fault>, addFaults: seq<Fault>, k: nat,
                rowsK: seq<Row<FundData>>, nextK: Guid, created: seq<FundDto>)
    requires |existsFaults| == |names| && |addFaults| == |names| && k < |names|
    requires Run(entityName, rows, next, now, names[..k], existsFaults[..k], addFaults[..k]) == Running(rowsK, nextK, created)
    ensures var o := CreateFundOutcome(entityName, rowsK, nextK, now, names[k], existsFaults[k], addFaults[k]);
            Run(entityName, rows, next, now, names[..k + 1], existsFaults[..k + 1], addFaults[..k + 1])
            == if existsFaults[k].Throws? then Aborted(rowsK, nextK, o.result.error)
               else Running(o.rows, o.next, created + if o.result.IsSuccess() then [o.result.value] else [])
  {
    RunSnoc(entityName, rows, next, now, names, existsFaults, addFaults, k);
    StepIsCreateFund(entityName, rowsK, nextK, created, now, names[k], existsFaults[k], addFaults[k]);
  }

  /**
   * The body of the handler's `foreach` loop for one name: the
   * duplicate-name check, whose failure stops the batch, then creation and
   * insertion, whose failures only skip the name.
   */
  method CreateBatchItem(funds: BaseRepository<FundData>, ids: IdSource, now: Time, name: string,
                         existsFault: Fault, addFault: Fault)
    returns (existsResult: Result<bool>, added: Option<FundDto>)
    requires funds.Valid() && ids.Valid()
    modifies funds, ids
    ensures funds.Valid() && ids.Valid()
    ensures var o := CreateFundOutcome(funds.entityName, old(funds.rows), old(ids.next), now, name, existsFault, addFault);
            && funds.rows == o.rows && ids.next == o.next
            && (existsResult.IsFailure() <==> existsFault.Throws?)
            && (existsFault.Throws? ==> existsResult == Result.FromResult(o.result))
            && (added.Some? <==> o.result.IsSuccess())
            && (added.Some? ==> added.value == o.result.value)
  {
    added := None;
    existsResult := ExistsByName(funds, Some(name), existsFault);
    if existsResult.IsFailure() || existsResult.value {
      return;
    }
    var fundResult := Fund.Create(ids, now, name);
    if fundResult.IsFailure() {
      return;
    }
    var fund := fundResult.value;
    var addResult := funds.Add(Row(fund.base.State(), fund.Data()), addFault);
    if addResult.IsFailure() {
      return;
    }
    added := Some(FundDtoOf(addResult.value));
  }

  /** CreateMultipleFundsCommandHandler.Handle: the empty-list check, the loop, then the empty-result check. */
  method CreateMultipleFunds(funds: BaseRepository<FundData>, ids: IdSource, now: Time,
                             names: seq<string>, existsFaults: seq<Fault>, addFaults: seq<Fault>)
    returns (r: Result<seq<FundDto>>)
    requires funds.Valid() && ids.Valid()
    requires |existsFaults| == |names| && |addFaults| == |names|
    modifies funds, ids
    ensures funds.Valid() && ids.Valid()
    ensures Creation(r, funds.rows, ids.next)
              == CreateMultipleFundsOutcome(funds.entityName, old(funds.rows), old(ids.next), now, names, existsFaults, addFaults)
  {
    if |names| == 0 {
      return Result.ValidationError(DomainErrors.GeneralValidationError);
    }
    var b := CreateBatch(funds, ids, now, names, existsFaults, addFaults);
    if b.Aborted? {
      return Result.InternalServerError(b.error);
    }
    if |b.created| == 0 {
      return Result.ValidationError(DomainErrors.GeneralValidationError);
    }
    r := Result.Success(b.created);
  }

  /** The handler's `foreach` loop: its final state is `Run` over all of the names. */
  method CreateBatch(funds: BaseRepository<FundData>, ids: IdSource, now: Time,
                     names: seq<string>, existsFaults: seq<Fault>, addFaults: seq<Fault>)
    returns (b: Batch)
    requires funds.Valid() && ids.Valid()
    requires |existsFaults| == |names| && |addFaults| == |names|
    modifies funds, ids
    ensures funds.Valid() && ids.Valid()
    ensures b == Run(funds.entityName, old(funds.rows), old(ids.next), now, names, existsFaults, addFaults)
    ensures funds.rows == b.rows && ids.next == b.next
  {
    var fundDtos: seq<FundDto> := [];
    var i := 0;
    while i < |names|
      invariant 0 <= i <= |names|
      invariant funds.Valid() && ids.Valid()
      invariant Run(funds.entityName, old(funds.rows), old(ids.next), now, names[..i], existsFaults[..i], addFaults[..i])
                == Running(funds.rows, ids.next, fundDtos)
    {
      RunStep(funds.entityName, old(funds.rows), old(ids.next), now, names, existsFaults, addFaults, i,
              funds.rows, ids.next, fundDtos);
      var existsResult, added := CreateBatchItem(funds, ids, now, names[i], existsFaults[i], addFaults[i]);
      if existsResult.IsFailure() {
        AbortedRunStops(funds.entityName, old(funds.rows), old(ids.next), now, names, existsFaults, addFaults, i + 1);
        return Aborted(funds.rows, ids.next, existsResult.error);
      }
      if added.Some? {
        fundDtos := fundDtos + [added.value];
      }
      i := i + 1;
    }
    assert names[..i] == names && existsFaults[..i] == existsFaults && addFaults[..i] == addFaults;
    b := Running(funds.rows, ids.next, fundDtos);
  }

  /** `ks` picks, in increasing order, the input position each created fund's name came from. */
  predicate NamesFrom(created: seq<FundDto>, names: seq<string>, ks: seq<nat>) {
    && |ks| == |created|
    && (forall j :: 0 <= j < |ks| ==> ks[j] < |names| && created[j].name == names[ks[j]])
    && (forall j, l :: 0 <= j < l < |ks| ==> ks[j] < ks[l])
  }

  /** The invariants of the fund table the loop keeps. */
  predicate TableInvariant(rows: seq<Row<FundData>>, next: Guid) {
    UniqueIds(rows) && IdsBelow(rows, next) && AllNamesValid(rows)
  }

  /**
   * One step keeps the table invariant, and either changes neither the
   * table nor the DTOs or appends one live fund with the drawn identifier
   * and the name as given, together with its DTO.
   */
  lemma StepKeeps(entityName: string, b: Batch, now: Time, name: string, existsFault: Fault, addFault: Fault)
    requires b.Running? && TableInvariant(b.rows, b.next)
    ensures var s := Step(entityName, b, now, name, existsFault, addFault);
            && TableInvariant(s.rows, s.next) && b.next <= s.next
            && (s.Aborted? ==> s.rows == b.rows)
            && (s.Running? && s.created == b.created ==> s.rows == b.rows)
            && (s.Running? && s.created != b.created ==>
                  && s.rows == b.rows + [Row(Created(b.next, now), FundData(Name(name)))]
                  && s.created == b.created + [FundDto(b.next, name, now, now)])
  {
    var s := Step(entityName, b, now, name, existsFault, addFault);
    if s.Running? && s.created != b.created {
      var row := Row(Created(b.next, now), ValidateFund(name).value);
      FreshIdIsFree(b.rows, row);
      assert s.rows == Inserted(b.rows, row);
    }
  }

  /** The loop keeps the table invariant, and the next identifier only grows. */
  lemma {:induction false} RunKeeps(entityName: string, rows: seq<Row<FundData>>, next: Guid, now: Time,
                                    names: seq<string>, existsFaults: seq<Fault>, addFaults: seq<Fault>)
    requires |existsFaults| == |names| && |addFaults| == |names|
    requires TableInvariant(rows, next)
    ensures var b := Run(entityName, rows, next, now, names, existsFaults, addFaults);
            TableInvariant(b.rows, b.next) && next <= b.next
    decreases |names|
  {
    if names != [] {
      var n := |names| - 1;
      var p := Run(entityName, rows, next, now, names[..n], existsFaults[..n], addFaults[..n]);
      RunKeeps(entityName, rows, next, now, names[..n], existsFaults[..n], addFaults[..n]);
      if p.Running? {
        StepKeeps(entityName, p, now, names[n], existsFaults[n], addFaults[n]);
      }
    }
  }

  /** The table only grows, and while running it holds exactly one new live row per DTO collected, in the same order. */
  predicate Grown(rows: seq<Row<FundData>>, b: Batch) {
    && |rows| <= |b.rows| && b.rows[..|rows|] == rows
    && (b.Running? ==> AddedMatch(b.rows[|rows|..], b.created))
  }

  /** The rows added and the DTOs collected correspond one to one, in order, and the rows are live. */
  predicate AddedMatch(added: seq<Row<FundData>>, created: seq<FundDto>) {
    |added| == |created| && forall j :: 0 <= j < |added| ==> !added[j].meta.isDeleted && created[j] == FundDtoOf(added[j])
  }

  /** Appending a live row together with its DTO keeps the table grown from `rows`. */
  lemma AppendGrows(rows: seq<Row<FundData>>, b: Batch, row: Row<FundData>, next: Guid)
    requires b.Running? && Grown(rows, b) && !row.meta.isDeleted
    ensures Grown(rows, Running(b.rows + [row], next, b.created + [FundDtoOf(row)]))
  {
    var s := Running(b.rows + [row], next, b.created + [FundDtoOf(row)]);
    assert s.rows[..|rows|] == b.rows[..|rows|];
    assert s.rows[|rows|..] == b.rows[|rows|..] + [row];
  }

  /** One step keeps the table grown from `rows`. */
  lemma StepGrows(entityName: string, rows: seq<Row<FundData>>, b: Batch, now: Time, name: string,
                  existsFault: Fault, addFault: Fault)
    requires b.Running? && TableInvariant(b.rows, b.next) && Grown(rows, b)
    ensures Grown(rows, Step(entityName, b, now, name, existsFault, addFault))
  {
    var s := Step(entityName, b, now, name, existsFault, addFault);
    StepKeeps(entityName, b, now, name, existsFault, addFault);
    if s.Running? && s.created != b.created {
      var row := Row(Created(b.next, now), FundData(Name(name)));
      AppendGrows(rows, b, row, s.next);
      assert s == Running(b.rows + [row], s.next, b.created + [FundDtoOf(row)]);
    }
  }

  lemma {:induction false} RunGrows(entityName: string, rows: seq<Row<FundData>>, next: Guid, now: Time,
                                    names: seq<string>, existsFaults: seq<Fault>, addFaults: seq<Fault>)
    requires |existsFaults| == |names| && |addFaults| == |names|
    requires TableInvariant(rows, next)
    ensures Grown(rows, Run(entityName, rows, next, now, names, existsFaults, addFaults))
    decreases |names|
  {
    if names == [] {
      assert rows[..|rows|] == rows;
    } else {
      var n := |names| - 1;
      var p := Run(entityName, rows, next, now, names[..n], existsFaults[..n], addFaults[..n]);
      RunGrows(entityName, rows, next, now, names[..n], existsFaults[..n], addFaults[..n]);
      RunKeeps(entityName, rows, next, now, names[..n], existsFaults[..n], addFaults[..n]);
      if p.Running? {
        StepGrows(entityName, rows, p, now, names[n], existsFaults[n], addFaults[n]);
      }
    }
  }

  /** The collected names are input names taken in input order, so there are at most as many as the input has. */
  lemma {:induction false} RunNamesFollowInput(entityName: string, rows: seq<Row<FundData>>, next: Guid, now: Time,
                                               names: seq<string>, existsFaults: seq<Fault>, addFaults: seq<Fault>)
    requires |existsFaults| == |names| && |addFaults| == |names|
    requires TableInvariant(rows, next)
    ensures var b := Run(entityName, rows, next, now, names, existsFaults, addFaults);
            b.Running? ==> |b.created| <= |names| && exists ks :: NamesFrom(b.created, names, ks)
    decreases |names|
  {
    var b := Run(entityName, rows, next, now, names, existsFaults, addFaults);
    if names == [] {
      assert NamesFrom([], names, []);
    } else {
      var n := |names| - 1;
      var p := Run(entityName, rows, next, now, names[..n], existsFaults[..n], addFaults[..n]);
      RunNamesFollowInput(entityName, rows, next, now, names[..n], existsFaults[..n], addFaults[..n]);
      RunKeeps(entityName, rows, next, now, names[..n], existsFaults[..n], addFaults[..n]);
      if p.Running? && b.Running? {
        StepKeeps(entityName, p, now, names[n], existsFaults[n], addFaults[n]);
        var ks :| NamesFrom(p.created, names[..n], ks);
        assert NamesFrom(p.created, names, ks);
        if b.created != p.created {
          assert NamesFrom(b.created, names, ks + [n]);
        }
      }
    }
  }

  /**
   * The handler's answers: an empty list, or a batch that adds nothing, is
   * a ValidationError (422); a failing duplicate-name check is passed on and
   * the funds added before it stay; otherwise the DTOs of exactly the funds
   * added, in input order.
   */
  lemma CreateMultipleFundsAnswers(entityName: string, rows: seq<Row<FundData>>, next: Guid, now: Time,
                                   names: seq<string>, existsFaults: seq<Fault>, addFaults: seq<Fault>)
    requires |existsFaults| == |names| && |addFaults| == |names|
    requires TableInvariant(rows, next)
    ensures var o := CreateMultipleFundsOutcome(entityName, rows, next, now, names, existsFaults, addFaults);
            && TableInvariant(o.rows, o.next)
            && |rows| <= |o.rows| && o.rows[..|rows|] == rows
            && (names == [] ==> o.result == Result.ValidationError(DomainErrors.GeneralValidationError) && o.rows == rows)
            && (o.result.IsFailure() ==>
                  o.result.StatusCode() == HttpStatusCode.UnprocessableEntity
                  || o.result.StatusCode() == HttpStatusCode.InternalServerError)
            && (o.result.StatusCode() == HttpStatusCode.UnprocessableEntity ==> o.rows == rows)
            && (o.result.IsSuccess() ==>
                  && 0 < |o.result.value| <= |names|
                  && AddedMatch(o.rows[|rows|..], o.result.value)
                  && exists ks :: NamesFrom(o.result.value, names, ks))
  {
    RunKeeps(entityName, rows, next, now, names, existsFaults, addFaults);
    RunGrows(entityName, rows, next, now, names, existsFaults, addFaults);
    RunNamesFollowInput(entityName, rows, next, now, names, existsFaults, addFaults);
    assert rows[..|rows|] == rows;
  }

  /** A name matching a live fund, including one added earlier in the same batch, is skipped. */
  lemma TakenNameIsSkipped(entityName: string, b: Batch, now: Time, name: string, addFault: Fault)
    requires b.Running? && NameTaken(b.rows, Some(name))
    ensures Step(entityName, b, now, name, NoFault, addFault) == b
  {
  }

  /**
   * The same name twice in one batch (up to case and padding) creates one
   * fund: the second copy finds the first one already in the table.
   */
  lemma RepeatedNameInBatchCreatedOnce(entityName: string, b: Batch, now: Time,
                                       name: string, name2: string, addFault2: Fault)
    requires b.Running? && TableInvariant(b.rows, b.next)
    requires !NameTaken(b.rows, Some(name)) && ValidateFund(name).IsSuccess()
    requires Lower(Trim(name2)) == Lower(Trim(name))
    ensures var s1 := Step(entityName, b, now, name, NoFault, NoFault);
            var s2 := Step(entityName, s1, now, name2, NoFault, addFault2);
            s2 == s1 && s1.Running? && |s1.created| == |b.created| + 1 && |s1.rows| == |b.rows| + 1
  {
    var s1 := Step(entityName, b, now, name, NoFault, NoFault);
    StepKeeps(entityName, b, now, name, NoFault, NoFault);
    FreshIdIsFree(b.rows, Row(Created(b.next, now), ValidateFund(name).value));
    var k := |b.rows|;
    assert s1.rows[k] == Row(Created(b.next, now), FundData(Name(name)));
    assert NameMatches(s1.rows[k], TrimmedQuery(Some(name2)));
    TakenNameIsSkipped(entityName, s1, now, name2, addFault2);
  }
}
