/**
 * TimeoffBalanceService: the soft-delete CRUD pattern over TimeoffBalance rows, plus
 * the per-category bookkeeping the leave manager and the time tracker rely on:
 * finding an employee's balance, reading and changing one category's counter, and
 * the days used out of the yearly allowance.
 */
module TimeoffBalanceService {
  import opened Wrappers
  import opened Entities
  import opened Linq
  import Repository
  import CrudService

  /** The yearly allowance: 20 vacation, 10 sick, 5 personal and 5 other days. */
  const TotalTimeoffDays: int := 40

  /** Update copies the four counters; the employee the balance belongs to stays. */
  function Merge(existing: TimeoffBalance, incoming: TimeoffBalance): TimeoffBalance {
    existing.(
      vacationDays := incoming.vacationDays, sickDays := incoming.sickDays,
      personalDays := incoming.personalDays, otherTimeOffDays := incoming.otherTimeOffDays)
  }

  /** After Update, the visible row reads back with the incoming counters and its own employee. */
  lemma UpdateCopiesColumns(rows: seq<Row<TimeoffBalance>>, entity: Row<TimeoffBalance>)
    requires Repository.Increasing(rows) && CrudService.Visible(rows, entity.id)
    ensures var before := CrudService.GetById(rows, entity.id).value.data;
      var after := CrudService.GetById(CrudService.UpdatedRows(rows, entity, Merge).value, entity.id);
      && after.Some? && after.value.id == entity.id && !after.value.deleted
      && after.value.data == entity.data.(employeeId := before.employeeId)
  {
    CrudService.UpdateThenGetById(rows, entity, Merge);
  }

  /** Update: a missing or deleted key throws; otherwise the four counters are overwritten. */
  method Update(repo: Repository.TimeCraftRepository<TimeoffBalance>, entity: Row<TimeoffBalance>) returns (o: Outcome)
    requires repo.Valid()
    modifies repo
    ensures repo.Valid() && repo.nextId == old(repo.nextId)
    ensures match CrudService.UpdatedRows(old(repo.rows), entity, Merge)
      case Failure(e) => o == Fail(e) && repo.rows == old(repo.rows)
      case Success(rows) => o == Pass && repo.rows == rows
  {
    o := CrudService.Update(repo, entity, Merge);
  }

  function OfEmployee(employeeId: int): Row<TimeoffBalance> -> bool {
    (x: Row<TimeoffBalance>) => x.data.employeeId == employeeId
  }

  /** The rows SearchTimeoffBalances keeps: visible ones, of the employee when the id is positive. */
  function Matches(employeeId: int): Row<TimeoffBalance> -> bool {
    (x: Row<TimeoffBalance>) => !x.deleted && (employeeId <= 0 || x.data.employeeId == employeeId)
  }

  /**
   * SearchTimeoffBalances: the employee filter applies only to a positive id, then
   * the visible rows in store order, page `Math.Max(page, 1)`. It is one filter by
   * Matches followed by the page.
   */
  function SearchTimeoffBalances(rows: seq<Row<TimeoffBalance>>, employeeId: int, page: int, pageSize: int)
    : (r: seq<Row<TimeoffBalance>>)
    ensures r == Page(Where(rows, Matches(employeeId)), Max(page, 1), pageSize)
    ensures forall i :: 0 <= i < |r| ==> r[i] in rows && Matches(employeeId)(r[i])
  {
    var query := if employeeId > 0 then Where(rows, OfEmployee(employeeId)) else rows;
    var visible := Where(query, Repository.NotDeleted());
    WhereSubset(rows, Matches(employeeId));
    if employeeId > 0 then
      WhereWhere(rows, OfEmployee(employeeId), Repository.NotDeleted(), Matches(employeeId));
      var r := Page(visible, Max(page, 1), pageSize);
      assert forall i :: 0 <= i < |r| ==> r[i] in visible;
      r
    else
      WhereSame(rows, Repository.NotDeleted(), Matches(employeeId));
      var w := Where(rows, Matches(employeeId));
      var r := Page(w, Max(page, 1), pageSize);
      assert forall i :: 0 <= i < |r| ==> r[i] in w;
      r
  }

  /**
   * `SearchTimeoffBalances(employeeId).FirstOrDefault()` with the default page: the
   * first visible balance of the employee in store order, or null. It is stated on the
   * filter; FirstBalanceIsFirstOfSearch shows it is the first row of the search's page.
   */
  function FirstBalance(rows: seq<Row<TimeoffBalance>>, employeeId: int): (r: Option<Row<TimeoffBalance>>)
    ensures r == FirstOrDefault(Where(rows, Matches(employeeId)))
    ensures r.None? <==> forall i :: 0 <= i < |rows| ==> !Matches(employeeId)(rows[i])
    ensures r.Some? ==> r.value in rows && Matches(employeeId)(r.value)
  {
    WhereSubset(rows, Matches(employeeId));
    WhereComplete(rows, Matches(employeeId));
    FirstOrDefault(Where(rows, Matches(employeeId)))
  }

  /** FirstBalance is the first row of SearchTimeoffBalances on the default page. */
  lemma FirstBalanceIsFirstOfSearch(rows: seq<Row<TimeoffBalance>>, employeeId: int)
    ensures FirstBalance(rows, employeeId)
         == FirstOrDefault(SearchTimeoffBalances(rows, employeeId, CrudService.DefaultPageNumber, CrudService.DefaultPageSize))
  {
    FirstOfFirstPage(Where(rows, Matches(employeeId)), CrudService.DefaultPageSize);
  }

  /** The balance found is the one at the first index that matches. */
  lemma FirstBalanceIsFirstMatch(rows: seq<Row<TimeoffBalance>>, employeeId: int, k: nat)
    requires k < |rows| && Matches(employeeId)(rows[k])
    requires forall j :: 0 <= j < k ==> !Matches(employeeId)(rows[j])
    ensures FirstBalance(rows, employeeId) == Some(rows[k])
  {
    WhereFirst(rows, Matches(employeeId), k);
  }

  /**
   * GetBalance: an undefined category throws before the balance is touched; a
   * missing balance is dereferenced and throws; otherwise the category's counter.
   */
  function GetBalance(rows: seq<Row<TimeoffBalance>>, employeeId: int, t: TimeoffType): (r: Result<int, Error>)
    ensures t.Unnamed? ==> r == Failure(UnknownType)
    ensures t.IsNamed() ==> (r.Failure? <==> FirstBalance(rows, employeeId).None?)
    ensures t.IsNamed() && r.Failure? ==> r.error == NullDereference
    ensures r.Success? ==> t.IsNamed() && r.value == FirstBalance(rows, employeeId).value.data.Days(t)
  {
    if t.Unnamed? then Failure(UnknownType)
    else
      match FirstBalance(rows, employeeId)
      case None => Failure(NullDereference)
      case Some(b) => Success(b.data.Days(t))
  }

  /**
   * The table after ChangeBalance: the same failures as GetBalance; otherwise the
   * found row's counter for the category moves by `quantity` and nothing else changes.
   */
  function ChangedBalances(rows: seq<Row<TimeoffBalance>>, employeeId: int, quantity: int, t: TimeoffType)
    : (r: Result<seq<Row<TimeoffBalance>>, Error>)
    ensures t.Unnamed? ==> r == Failure(UnknownType)
    ensures t.IsNamed() ==> (r.Failure? <==> FirstBalance(rows, employeeId).None?)
    ensures t.IsNamed() && r.Failure? ==> r.error == NullDereference
    ensures r.Success? ==>
      var b := FirstBalance(rows, employeeId).value;
      && |r.value| == |rows|
      && forall i :: 0 <= i < |rows| ==>
           && r.value[i].id == rows[i].id
           && (rows[i].id != b.id ==> r.value[i] == rows[i])
  {
    if t.Unnamed? then Failure(UnknownType)
    else
      match FirstBalance(rows, employeeId)
      case None => Failure(NullDereference)
      case Some(b) => Success(Repository.ReplaceRow(rows, b.(data := b.data.Added(t, quantity))))
  }

  /** ChangeBalance: the found balance's counter moves by `quantity`, or the call throws. */
  method ChangeBalance(repo: Repository.TimeCraftRepository<TimeoffBalance>, employeeId: int, quantity: int, t: TimeoffType)
    returns (o: Outcome)
    requires repo.Valid()
    modifies repo
    ensures repo.Valid() && repo.nextId == old(repo.nextId)
    ensures match ChangedBalances(old(repo.rows), employeeId, quantity, t)
      case Failure(e) => o == Fail(e) && repo.rows == old(repo.rows)
      case Success(rows) => o == Pass && repo.rows == rows
  {
    if t.Unnamed? {
      return Fail(UnknownType);
    }
    var balance := FirstBalance(repo.rows, employeeId);
    if balance.None? {
      return Fail(NullDereference);
    }
    var b := balance.value;
    repo.Update(b.(data := b.data.Added(t, quantity)));
    o := Pass;
  }

  /**
   * With unique keys, GetBalance after ChangeBalance reads the changed counter moved
   * by `quantity` and every other category as it was.
   */
  lemma ChangeBalanceThenGetBalance(rows: seq<Row<TimeoffBalance>>, employeeId: int, quantity: int, t: TimeoffType, u: TimeoffType)
    requires Repository.Increasing(rows)
    requires t.IsNamed() && u.IsNamed() && FirstBalance(rows, employeeId).Some?
    ensures GetBalance(ChangedBalances(rows, employeeId, quantity, t).value, employeeId, u)
         == Success(GetBalance(rows, employeeId, u).value + (if u == t then quantity else 0))
  {
    var b := FirstBalance(rows, employeeId).value;
    var k := WhereFirstIndex(rows, Matches(employeeId));
    var b' := b.(data := b.data.Added(t, quantity));
    var after := ChangedBalances(rows, employeeId, quantity, t).value;
    assert after == Repository.ReplaceRow(rows, b');
    Repository.ReplaceRowAt(rows, k, b');
    assert after == rows[k := b'];
    assert forall j :: 0 <= j < k ==> after[j] == rows[j];
    assert Matches(employeeId)(after[k]);
    FirstBalanceIsFirstMatch(after, employeeId, k);
    assert GetBalance(after, employeeId, u) == Success(b'.data.Days(u));
    assert GetBalance(rows, employeeId, u) == Success(b.data.Days(u));
    if u == t {
      assert b'.data.Days(u) == b.data.Days(u) + quantity;
    } else {
      assert b'.data.Days(u) == b.data.Days(u);
    }
    assert GetBalance(after, employeeId, u).value == GetBalance(rows, employeeId, u).value + (if u == t then quantity else 0);
    assert GetBalance(after, employeeId, u).Success?;
  }

  /**
   * CalculateUsedDays: the first balance of the employee in store order, deleted or
   * not (the query has no Deleted filter), and the allowance minus its four counters.
   */
  function CalculateUsedDays(rows: seq<Row<TimeoffBalance>>, employeeId: int): (r: Result<int, Error>)
    ensures r.Failure? <==> forall i :: 0 <= i < |rows| ==> rows[i].data.employeeId != employeeId
    ensures r.Failure? ==> r.error == NotFound
  {
    var found := Repository.GetByCondition(rows, OfEmployee(employeeId));
    WhereComplete(rows, OfEmployee(employeeId));
    WhereSubset(rows, OfEmployee(employeeId));
    UsedDaysOf(FirstOrDefault(found))
  }

  /** The used days of a looked-up balance row: a missing row is NotFound. */
  function UsedDaysOf(first: Option<Row<TimeoffBalance>>): Result<int, Error> {
    match first
    case None => Failure(NotFound)
    case Some(b) => Success(TotalTimeoffDays - b.data.Total())
  }

  /** The days used are read from the employee's first row, whatever its Deleted flag. */
  lemma UsedDaysOfFirstRow(rows: seq<Row<TimeoffBalance>>, employeeId: int, k: nat)
    requires k < |rows| && rows[k].data.employeeId == employeeId
    requires forall j :: 0 <= j < k ==> rows[j].data.employeeId != employeeId
    ensures CalculateUsedDays(rows, employeeId) == Success(TotalTimeoffDays - rows[k].data.Total())
  {
    WhereFirst(rows, OfEmployee(employeeId), k);
  }

  /**
   * For a positive id whose first balance row is visible, changing the balance by
   * `quantity` lowers the used days by `quantity`: deducting days uses them up.
   */
  lemma UsedDaysAfterChange(rows: seq<Row<TimeoffBalance>>, employeeId: int, quantity: int, t: TimeoffType, k: nat)
    requires Repository.Increasing(rows) && employeeId > 0 && t.IsNamed()
    requires k < |rows| && rows[k].data.employeeId == employeeId && !rows[k].deleted
    requires forall j :: 0 <= j < k ==> rows[j].data.employeeId != employeeId
    ensures CalculateUsedDays(ChangedBalances(rows, employeeId, quantity, t).value, employeeId)
         == Success(CalculateUsedDays(rows, employeeId).value - quantity)
  {
    FirstBalanceIsFirstMatch(rows, employeeId, k);
    UsedDaysOfFirstRow(rows, employeeId, k);
    var b' := rows[k].(data := rows[k].data.Added(t, quantity));
    var after := ChangedBalances(rows, employeeId, quantity, t).value;
    assert after == Repository.ReplaceRow(rows, b');
    Repository.ReplaceRowAt(rows, k, b');
    assert after == rows[k := b'];
    assert forall j :: 0 <= j < k ==> after[j] == rows[j];
    UsedDaysOfFirstRow(after, employeeId, k);
    assert b'.data.Total() == rows[k].data.Total() + quantity;
    assert CalculateUsedDays(after, employeeId).value == CalculateUsedDays(rows, employeeId).value - quantity;
  }

  /** Tables whose rows hold the same columns, position by position, give the same used days. */
  lemma UsedDaysSameColumns(rows: seq<Row<TimeoffBalance>>, after: seq<Row<TimeoffBalance>>, employeeId: int)
    requires |after| == |rows|
    requires forall i :: 0 <= i < |rows| ==> after[i].data == rows[i].data
    ensures CalculateUsedDays(after, employeeId) == CalculateUsedDays(rows, employeeId)
  {
    FirstOfEmployeeSameColumns(rows, after, employeeId);
    calc {
      CalculateUsedDays(after, employeeId);
      == { UsedDaysOfFirst(after, employeeId); }
      UsedDaysOf(FirstOrDefault(Where(after, OfEmployee(employeeId))));
      == UsedDaysOf(FirstOrDefault(Where(rows, OfEmployee(employeeId))));
      == { UsedDaysOfFirst(rows, employeeId); }
      CalculateUsedDays(rows, employeeId);
    }
  }

  /** CalculateUsedDays reads the employee's first row in store order. */
  lemma UsedDaysOfFirst(rows: seq<Row<TimeoffBalance>>, employeeId: int)
    ensures CalculateUsedDays(rows, employeeId) == UsedDaysOf(FirstOrDefault(Where(rows, OfEmployee(employeeId))))
  {
  }

  /** Tables whose rows hold the same columns, position by position, have the same first row of an employee, up to key and flag. */
  lemma {:induction false} FirstOfEmployeeSameColumns(rows: seq<Row<TimeoffBalance>>, after: seq<Row<TimeoffBalance>>, employeeId: int)
    requires |after| == |rows|
    requires forall i :: 0 <= i < |rows| ==> after[i].data == rows[i].data
    ensures var first, first' := FirstOrDefault(Where(rows, OfEmployee(employeeId))), FirstOrDefault(Where(after, OfEmployee(employeeId)));
      first.Some? == first'.Some? && (first.Some? ==> first.value.data == first'.value.data)
  {
    var p := OfEmployee(employeeId);
    if rows != [] {
      if !p(rows[0]) {
        assert !p(after[0]);
        assert Where(rows, p) == Where(rows[1..], p);
        assert Where(after, p) == Where(after[1..], p);
        FirstOfEmployeeSameColumns(rows[1..], after[1..], employeeId);
      }
    }
  }

  /**
   * Soft-deleting a balance row does not change anyone's used days, because
   * CalculateUsedDays still reads the deleted row, while GetBalance no longer sees it.
   */
  lemma SoftDeleteKeepsUsedDays(rows: seq<Row<TimeoffBalance>>, id: int, employeeId: int)
    requires Repository.Increasing(rows) && CrudService.Visible(rows, id)
    ensures CalculateUsedDays(CrudService.DeletedRows(rows, id, true).value, employeeId)
         == CalculateUsedDays(rows, employeeId)
  {
    var existing := CrudService.GetById(rows, id).value;
    var k :| 0 <= k < |rows| && rows[k] == existing;
    CrudService.GetByIdUnique(rows, id, k);
    var after := CrudService.DeletedRows(rows, id, true).value;
    assert forall i :: 0 <= i < |rows| ==> after[i].data == rows[i].data;
    UsedDaysSameColumns(rows, after, employeeId);
  }
}
