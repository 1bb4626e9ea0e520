/**
 * TimeTrackerService: whether an employee can still take a number of days of one
 * category, and the running count of used days the service keeps in a field.
 */
module TimeTracker {
  import opened Wrappers
  import opened Entities
  import Repository
  import TimeoffBalanceService
  import LeaveManagerService

  /**
   * TimeoffPossible: the negation of the leave manager's ExceedsBalance on the
   * employee's balance. It throws what GetBalance throws, and otherwise holds exactly
   * when the days are at most the category's counter.
   */
  function TimeoffPossible(balances: seq<Row<TimeoffBalance>>, employeeId: int, t: TimeoffType, days: int)
    : (r: Result<bool, Error>)
    ensures match TimeoffBalanceService.GetBalance(balances, employeeId, t)
      case Failure(e) => r == Failure(e)
      case Success(n) => r == Success(days <= n)
  {
    LeaveManagerService.ExceedsBalanceIsAboveGetBalance(balances, employeeId, t, days);
    match LeaveManagerService.ExceedsBalance(t, TimeoffBalanceService.FirstBalance(balances, employeeId), days)
    case Failure(e) => Failure(e)
    case Success(exceeds) => Success(!exceeds)
  }

  /**
   * For an application from a known employee in a valid category, TimeoffPossible
   * holds for the requested days exactly when Apply accepts it, is false exactly when
   * Apply refuses it for lack of balance, and fails exactly when Apply fails the same way.
   */
  lemma TimeoffPossibleIsApplyGate(
    employees: seq<Row<Employee>>, balances: seq<Row<TimeoffBalance>>, userId: string,
    app: LeaveManagerService.Application)
    requires LeaveManagerService.EmployeeOfUser(employees, userId).Some?
    requires ParseTimeoffType(app.typeName).Some?
    ensures var employeeId := LeaveManagerService.EmployeeOfUser(employees, userId).value.id;
      var possible := TimeoffPossible(balances, employeeId, ParseTimeoffType(app.typeName).value,
                                      LeaveManagerService.RequestedDays(app.startDate, app.endDate));
      var decision := LeaveManagerService.ApplyDecision(employees, balances, userId, app);
      && (possible == Success(true) <==> decision.Success?)
      && (possible == Success(false) <==> decision == Failure(InsufficientBalance))
      && (possible.Failure? <==> decision.Failure? && decision.error != InsufficientBalance)
  {
    var employeeId := LeaveManagerService.EmployeeOfUser(employees, userId).value.id;
    var t := ParseTimeoffType(app.typeName).value;
    assert TimeoffBalanceService.GetBalance(balances, employeeId, t).Failure? ==>
      TimeoffBalanceService.GetBalance(balances, employeeId, t).error == NullDereference;
  }

  /** The service object and the one field it updates. */
  class TimeTrackerService {
    /** TOTAL_USED_DAYS: -1 until a first IncreaseUsedDays completes. */
    var totalUsedDays: int

    constructor ()
      ensures totalUsedDays == -1
    {
      totalUsedDays := -1;
    }

    /**
     * IncreaseUsedDays: the employee's used days plus `quantity`, stored in the field.
     * A missing balance row throws before the assignment, leaving the field as it was.
     * No balance row changes.
     */
    method IncreaseUsedDays(balances: Repository.TimeCraftRepository<TimeoffBalance>, employeeId: int, quantity: int)
      returns (o: Outcome)
      modifies this
      ensures match TimeoffBalanceService.CalculateUsedDays(balances.rows, employeeId)
        case Failure(e) => o == Fail(e) && totalUsedDays == old(totalUsedDays)
        case Success(used) => o == Pass && totalUsedDays == used + quantity
    {
      var used := TimeoffBalanceService.CalculateUsedDays(balances.rows, employeeId);
      if used.Failure? {
        return Fail(used.error);
      }
      totalUsedDays := used.value + quantity;
      o := Pass;
    }
  }
}
