/**
 * FundRepository: the fund table with its duplicate-name query.
 */
module FundRepository {
  import opened Wrappers
  import opened Common
  import opened Text
  import opened ValueObjects
  import opened Entities
  import opened Persistence

  /** `name?.Trim() ?? string.Empty`. */
  function TrimmedQuery(name: Option<string>): (t: string)
    ensures name.None? ==> t == []
    ensures name.Some? ==> t == Trim(name.value)
  {
    if name.None? then [] else Trim(name.value)
  }

  /** The stored name of a fund row matches the query, trimmed and ignoring case. */
  predicate NameMatches(row: Row<FundData>, trimmedName: string) {
    EqualsIgnoreCase(Trim(row.data.name.value), trimmedName)
  }

  /** Some live fund's trimmed name equals the trimmed query, ignoring case. */
  predicate NameTaken(rows: seq<Row<FundData>>, name: Option<string>) {
    exists i :: 0 <= i < |rows| && !rows[i].meta.isDeleted && NameMatches(rows[i], TrimmedQuery(name))
  }

  /**
   * ExistsByNameAsync: whether some live fund's trimmed name equals the
   * trimmed query, ignoring case.
   */
  function ExistsByName(funds: BaseRepository<FundData>, name: Option<string>, fault: Fault): (r: Result<bool>)
    reads funds
    ensures fault.Throws? ==> r == Result.InternalServerError(funds.ServerError(fault.message))
    ensures fault.NoFault? ==> r == Result.Success(NameTaken(funds.rows, name))
  {
    if fault.Throws? then Result.InternalServerError(funds.ServerError(fault.message))
    else
      var trimmedName := TrimmedQuery(name);
      var nonDeletedFunds := Visible(funds.rows, false);
      var found := Linq.Any(nonDeletedFunds, (f: Row<FundData>) => NameMatches(f, trimmedName));
      assert found <==> exists i :: 0 <= i < |funds.rows| && !funds.rows[i].meta.isDeleted
                                       && NameMatches(funds.rows[i], trimmedName) by {
        if found {
          var k :| 0 <= k < |nonDeletedFunds| && NameMatches(nonDeletedFunds[k], trimmedName);
          var i :| 0 <= i < |funds.rows| && funds.rows[i] == nonDeletedFunds[k];
        }
      }
      Result.Success(found)
  }

  /** Every stored fund carries a name `Name.Create` accepted. */
  predicate AllNamesValid(rows: seq<Row<FundData>>) {
    forall i :: 0 <= i < |rows| ==> rows[i].data.Valid()
  }

  /** Two queries that agree after trimming and case folding get the same answer. */
  lemma ExistsByNameDependsOnFoldedTrim(funds: BaseRepository<FundData>, a: string, b: string)
    requires Lower(Trim(a)) == Lower(Trim(b))
    ensures ExistsByName(funds, Some(a), NoFault) == ExistsByName(funds, Some(b), NoFault)
  {
  }

  /** Surrounding white space in the query makes no difference. */
  lemma ExistsByNameIgnoresPadding(funds: BaseRepository<FundData>, pre: string, name: string, post: string)
    requires IsBlank(pre) && IsBlank(post)
    ensures ExistsByName(funds, Some(pre + name + post), NoFault) == ExistsByName(funds, Some(name), NoFault)
  {
    TrimIgnoresPadding(pre, name, post);
  }

  /** The name of a live fund is found again, in any letter case. */
  lemma LiveFundNameIsTaken(funds: BaseRepository<FundData>, i: nat, query: string)
    requires i < |funds.rows| && !funds.rows[i].meta.isDeleted
    requires Lower(Trim(query)) == Lower(Trim(funds.rows[i].data.name.value))
    ensures ExistsByName(funds, Some(query), NoFault) == Result.Success(true)
  {
    var r := ExistsByName(funds, Some(query), NoFault);
    assert NameMatches(funds.rows[i], TrimmedQuery(Some(query)));
    assert r.IsSuccess() && r.value;
  }

  /** A missing or blank query matches no stored fund, since every stored fund name is non-blank. */
  lemma BlankQueryMatchesNothing(rows: seq<Row<FundData>>, name: Option<string>)
    requires AllNamesValid(rows) && IsNullOrWhiteSpace(name)
    ensures !NameTaken(rows, name)
  {
    if name.Some? {
      TrimEmptyIffBlank(name.value);
    }
    forall i | 0 <= i < |rows| ensures !NameMatches(rows[i], TrimmedQuery(name)) {
      assert rows[i].data.name.Valid();
      ValidNameTrimsToNonEmpty(rows[i].data.name);
      EqualsIgnoreCaseProperties(Trim(rows[i].data.name.value), []);
    }
  }
}
