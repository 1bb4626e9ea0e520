/**
 * EmployeeService: the soft-delete CRUD pattern over Employee rows, and the default
 * balance every new employee receives when it is created.
 */
module EmployeeService {
  import opened Wrappers
  import opened Entities
  import Repository
  import CrudService
  import TimeoffBalanceService

  /** Update copies the user, salary and position references: every column of its own. */
  function Merge(existing: Employee, incoming: Employee): Employee {
    Employee(incoming.userId, incoming.salaryId, incoming.positionId)
  }

  /** After Update, the visible row reads back with the incoming user, salary and position. */
  lemma UpdateCopiesColumns(rows: seq<Row<Employee>>, entity: Row<Employee>)
    requires Repository.Increasing(rows) && CrudService.Visible(rows, entity.id)
    ensures var after := CrudService.GetById(CrudService.UpdatedRows(rows, entity, Merge).value, entity.id);
      && after.Some? && after.value.id == entity.id && !after.value.deleted
      && after.value.data.userId == entity.data.userId
      && after.value.data.salaryId == entity.data.salaryId
      && after.value.data.positionId == entity.data.positionId
  {
    CrudService.UpdateThenGetById(rows, entity, Merge);
  }

  /** Update: a missing or deleted key throws; otherwise the three references are overwritten. */
  method Update(repo: Repository.TimeCraftRepository<Employee>, entity: Row<Employee>) returns (o: Outcome)
    requires repo.Valid()
    modifies repo
    ensures repo.Valid() && repo.nextId == old(repo.nextId)
    ensures match CrudService.UpdatedRows(old(repo.rows), entity, Merge)
      case Failure(e) => o == Fail(e) && repo.rows == old(repo.rows)
      case Success(rows) => o == Pass && repo.rows == rows
  {
    o := CrudService.Update(repo, entity, Merge);
  }

  /** The balance CreateDefaultTimeBalance stores: 20 vacation, 10 sick, 5 personal and 5 other days. */
  function DefaultBalance(employeeId: int): (b: TimeoffBalance)
    ensures b.employeeId == employeeId
    ensures b.Total() == TimeoffBalanceService.TotalTimeoffDays
  {
    TimeoffBalance(employeeId, 20, 10, 5, 5)
  }

  /**
   * A new employee that has no balance row yet reads back the default counters,
   * and has used none of the yearly allowance.
   */
  lemma NewEmployeeBalance(balances: seq<Row<TimeoffBalance>>, nextId: int, employeeId: int, t: TimeoffType)
    requires employeeId > 0 && t.IsNamed()
    requires forall i :: 0 <= i < |balances| ==> balances[i].data.employeeId != employeeId
    ensures var after := balances + [Row(nextId, false, DefaultBalance(employeeId))];
      && TimeoffBalanceService.CalculateUsedDays(after, employeeId) == Success(0)
      && TimeoffBalanceService.GetBalance(after, employeeId, t) == Success(DefaultBalance(employeeId).Days(t))
  {
    var after := balances + [Row(nextId, false, DefaultBalance(employeeId))];
    var k := |balances|;
    assert forall j :: 0 <= j < k ==> after[j] == balances[j];
    TimeoffBalanceService.UsedDaysOfFirstRow(after, employeeId, k);
    TimeoffBalanceService.FirstBalanceIsFirstMatch(after, employeeId, k);
  }

  /**
   * Create: the employee is stored under the next identity value, then one balance
   * row with the default counters is stored for that key.
   */
  method Create(
    employees: Repository.TimeCraftRepository<Employee>,
    balances: Repository.TimeCraftRepository<TimeoffBalance>,
    entity: Employee) returns (id: int)
    requires employees.Valid() && balances.Valid()
    modifies employees, balances
    ensures employees.Valid() && balances.Valid()
    ensures id == old(employees.nextId) && employees.nextId == id + 1
    ensures employees.rows == old(employees.rows) + [Row(id, false, entity)]
    ensures balances.nextId == old(balances.nextId) + 1
    ensures balances.rows == old(balances.rows) + [Row(old(balances.nextId), false, DefaultBalance(id))]
    ensures CrudService.GetById(employees.rows, id) == Some(Row(id, false, entity))
    ensures (forall i :: 0 <= i < |old(balances.rows)| ==> old(balances.rows)[i].data.employeeId != id) ==>
      TimeoffBalanceService.CalculateUsedDays(balances.rows, id) == Success(0)
  {
    id := CrudService.Create(employees, entity);
    var _ := balances.Create(DefaultBalance(id));
    if forall i :: 0 <= i < |old(balances.rows)| ==> old(balances.rows)[i].data.employeeId != id {
      NewEmployeeBalance(old(balances.rows), old(balances.nextId), id, Vacation);
    }
  }
}
