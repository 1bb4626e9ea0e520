/**
 * LeaveManagerService: applying for time off against the employee's balance, and
 * approving or denying a stored request, which deducts the requested days from the
 * balance on approval. Notification publishing is not part of this model.
 */
module LeaveManagerService {
  import opened Wrappers
  import opened Entities
  import opened Linq
  import Repository
  import TimeoffBalanceService

  /**
   * TimeoffRequestApplicationDto without its EmployeeId, which Apply overwrites with
   * the resolved employee's key before reading it.
   */
  datatype Application = Application(typeName: string, startDate: int, endDate: int, status: string, comment: string)

  /** An application whose client left Status out: the DTO's initialiser makes it Pending. */
  function NewApplication(typeName: string, startDate: int, endDate: int, comment: string): Application {
    Application(typeName, startDate, endDate, Pending, comment)
  }

  /** `(EndDate - StartDate).Days`: whole calendar days, the end day not counted, negative when the end comes first. */
  function RequestedDays(startDate: int, endDate: int): int {
    endDate - startDate
  }

  /**
   * ExceedsBalance: the switch over the category. An undefined category reaches the
   * default branch and throws without touching the balance; a named one dereferences
   * the balance, which throws when it is null; otherwise the days exceed the balance
   * when they are strictly more than that category's counter.
   */
  function ExceedsBalance(t: TimeoffType, balance: Option<Row<TimeoffBalance>>, days: int): (r: Result<bool, Error>)
    ensures t.Unnamed? ==> r == Failure(UnknownType)
    ensures t.IsNamed() && balance.None? ==> r == Failure(NullDereference)
    ensures t.IsNamed() && balance.Some? ==> r == Success(days > balance.value.data.Days(t))
  {
    match t
    case Unnamed => Failure(UnknownType)
    case _ =>
      match balance
      case None => Failure(NullDereference)
      case Some(b) =>
        match t
        case Vacation => Success(days > b.data.vacationDays)
        case Sick => Success(days > b.data.sickDays)
        case Personal => Success(days > b.data.personalDays)
        case Other => Success(days > b.data.otherTimeOffDays)
  }

  /**
   * On the balance the services look up for an employee, ExceedsBalance throws exactly
   * what GetBalance throws, and otherwise says whether the days are above what
   * GetBalance returns: a request for exactly the remaining days does not exceed it.
   */
  lemma ExceedsBalanceIsAboveGetBalance(balances: seq<Row<TimeoffBalance>>, employeeId: int, t: TimeoffType, days: int)
    ensures var exceeds := ExceedsBalance(t, TimeoffBalanceService.FirstBalance(balances, employeeId), days);
      match TimeoffBalanceService.GetBalance(balances, employeeId, t)
      case Failure(e) => exceeds == Failure(e)
      case Success(n) => exceeds == Success(days > n)
  {
  }

  function HasUser(userId: string): Row<Employee> -> bool {
    (x: Row<Employee>) => x.data.userId == userId
  }

  /**
   * `GetAll().Where(x => x.UserId == userId).FirstOrDefault()`: the first employee of
   * the user in store order. There is no Deleted filter, so a soft-deleted employee is found.
   */
  function EmployeeOfUser(employees: seq<Row<Employee>>, userId: string): (r: Option<Row<Employee>>)
    ensures r.None? <==> forall i :: 0 <= i < |employees| ==> employees[i].data.userId != userId
    ensures r.Some? ==> r.value in employees && r.value.data.userId == userId
  {
    WhereSubset(employees, HasUser(userId));
    WhereComplete(employees, HasUser(userId));
    FirstOrDefault(Where(employees, HasUser(userId)))
  }

  /**
   * The employee found is the first one in store order whose user matches: with k the
   * first such index, EmployeeOfUser yields the row at k.
   */
  lemma EmployeeOfUserIsFirstMatch(employees: seq<Row<Employee>>, userId: string, k: nat)
    requires k < |employees| && employees[k].data.userId == userId
    requires forall j :: 0 <= j < k ==> employees[j].data.userId != userId
    ensures EmployeeOfUser(employees, userId) == Some(employees[k])
  {
    WhereFirst(employees, HasUser(userId), k);
  }

  /** The request the mapper builds from the application once its EmployeeId is set. */
  function RequestFor(employeeId: int, app: Application): TimeoffRequest {
    TimeoffRequest(employeeId, app.typeName, app.startDate, app.endDate, app.status, app.comment)
  }

  /**
   * What ApplyForTimeoffRequest decides before it writes anything: Success(None) is
   * `return false`, Success(Some(request)) is the request it inserts before it returns
   * true, and Failure is what it throws. The balance gate is stated through GetBalance.
   */
  function ApplyDecision(
    employees: seq<Row<Employee>>, balances: seq<Row<TimeoffBalance>>, userId: string, app: Application)
    : (r: Result<Option<TimeoffRequest>, Error>)
    ensures EmployeeOfUser(employees, userId).None? ==> r == Success(None)
    ensures EmployeeOfUser(employees, userId).Some? && ParseTimeoffType(app.typeName).None? ==>
      r == Failure(InvalidType)
    ensures EmployeeOfUser(employees, userId).Some? && ParseTimeoffType(app.typeName).Some? ==>
      var employeeId := EmployeeOfUser(employees, userId).value.id;
      match TimeoffBalanceService.GetBalance(balances, employeeId, ParseTimeoffType(app.typeName).value)
      case Failure(e) => r == Failure(e)
      case Success(n) =>
        r == if RequestedDays(app.startDate, app.endDate) > n then Failure(InsufficientBalance)
             else Success(Some(RequestFor(employeeId, app)))
    ensures r.Success? && r.value.Some? ==>
      && r.value.value.employeeId == EmployeeOfUser(employees, userId).value.id
      && r.value.value.status == app.status
  {
    match EmployeeOfUser(employees, userId)
    case None => Success(None)
    case Some(employee) =>
      match ParseTimeoffType(app.typeName)
      case None => Failure(InvalidType)
      case Some(t) =>
        var days := RequestedDays(app.startDate, app.endDate);
        ExceedsBalanceIsAboveGetBalance(balances, employee.id, t, days);
        match ExceedsBalance(t, TimeoffBalanceService.FirstBalance(balances, employee.id), days)
        case Failure(e) => Failure(e)
        case Success(exceeds) =>
          if exceeds then Failure(InsufficientBalance) else Success(Some(RequestFor(employee.id, app)))
  }

  /** A request applied for without a status is stored as Pending. */
  lemma NewApplicationIsPending(
    employees: seq<Row<Employee>>, balances: seq<Row<TimeoffBalance>>, userId: string,
    typeName: string, startDate: int, endDate: int, comment: string)
    requires ApplyDecision(employees, balances, userId, NewApplication(typeName, startDate, endDate, comment)) != Success(None)
    requires ApplyDecision(employees, balances, userId, NewApplication(typeName, startDate, endDate, comment)).Success?
    ensures ApplyDecision(employees, balances, userId, NewApplication(typeName, startDate, endDate, comment)).value.value.status == Pending
  {
  }

  /**
   * ApplyForTimeoffRequest: resolve the user's employee, parse the category, check the
   * requested days against the balance, and insert the request. Only the request table
   * changes; no balance counter moves at application time.
   */
  method ApplyForTimeoffRequest(
    employees: Repository.TimeCraftRepository<Employee>,
    balances: Repository.TimeCraftRepository<TimeoffBalance>,
    requests: Repository.TimeCraftRepository<TimeoffRequest>,
    userId: string, app: Application) returns (r: Result<bool, Error>)
    requires requests.Valid()
    modifies requests
    ensures requests.Valid()
    ensures match ApplyDecision(employees.rows, balances.rows, userId, app)
      case Failure(e) =>
        r == Failure(e) && requests.rows == old(requests.rows) && requests.nextId == old(requests.nextId)
      case Success(None) =>
        r == Success(false) && requests.rows == old(requests.rows) && requests.nextId == old(requests.nextId)
      case Success(Some(request)) =>
        && r == Success(true)
        && requests.rows == old(requests.rows) + [Row(old(requests.nextId), false, request)]
        && requests.nextId == old(requests.nextId) + 1
  {
    var employee := EmployeeOfUser(employees.rows, userId);
    if employee.None? {
      return Success(false);
    }
    var parsed := ParseTimeoffType(app.typeName);
    if parsed.None? {
      return Failure(InvalidType);
    }
    var days := RequestedDays(app.startDate, app.endDate);
    var balance := TimeoffBalanceService.FirstBalance(balances.rows, employee.value.id);
    var exceeds := ExceedsBalance(parsed.value, balance, days);
    if exceeds.Failure? {
      return Failure(exceeds.error);
    }
    if exceeds.value {
      return Failure(InsufficientBalance);
    }
    var _ := requests.Create(RequestFor(employee.value.id, app));
    r := Success(true);
  }

  /** Which of the two public entry points was called: ApproveTimeoffRequest or RejectTimeoffRequest. */
  datatype Decision = Approve | Deny

  /** The status a decision stores. */
  function StatusAfter(d: Decision): string {
    if d == Approve then Approved else Denied
  }

  /** `GetById(x => x.Id == id).FirstOrDefault()` on requests: no Deleted filter. */
  function FindRequest(requests: seq<Row<TimeoffRequest>>, id: int): (r: Option<Row<TimeoffRequest>>)
    ensures r.None? <==> forall i :: 0 <= i < |requests| ==> requests[i].id != id
    ensures r.Some? ==> r.value in requests && r.value.id == id
  {
    WhereSubset(requests, Repository.HasId(id));
    WhereComplete(requests, Repository.HasId(id));
    FirstOrDefault(Repository.GetById(requests, id))
  }

  /** With unique keys, the request found is the one row holding the key. */
  lemma FindRequestUnique(requests: seq<Row<TimeoffRequest>>, id: int, k: nat)
    requires Repository.Increasing(requests) && k < |requests| && requests[k].id == id
    ensures FindRequest(requests, id) == Some(requests[k])
  {
    WhereFirst(requests, Repository.HasId(id), k);
  }

  /**
   * The category Approve deducts from: the parsed Type, or `default(TimeoffType)` when
   * the stored string does not parse (TryParse's result is not checked there).
   */
  function StoredType(request: TimeoffRequest): (t: TimeoffType)
    ensures t.IsNamed()
    ensures ParseTimeoffType(request.timeoffType).Some? ==> t == ParseTimeoffType(request.timeoffType).value
  {
    ParseTimeoffType(request.timeoffType).GetOr(DefaultTimeoffType)
  }

  /** The days Approve deducts, recomputed from the stored dates. */
  function StoredDays(request: TimeoffRequest): int {
    RequestedDays(request.startDate, request.endDate)
  }

  /**
   * The request and balance tables after ApproveOrDenyTimeoffRequest, or what it throws.
   * A missing request, or a decision that repeats the stored status, throws before any
   * write; Approve then deducts the days from the employee's balance, which throws when
   * the employee has none; the request then takes the new status.
   */
  function Decided(
    requests: seq<Row<TimeoffRequest>>, balances: seq<Row<TimeoffBalance>>, id: int, d: Decision)
    : (r: Result<(seq<Row<TimeoffRequest>>, seq<Row<TimeoffBalance>>), Error>)
    ensures FindRequest(requests, id).None? ==> r == Failure(NotFound)
    ensures FindRequest(requests, id).Some? && d == Approve && FindRequest(requests, id).value.data.status == Approved ==>
      r == Failure(AlreadyApproved)
    ensures FindRequest(requests, id).Some? && d == Deny && FindRequest(requests, id).value.data.status == Denied ==>
      r == Failure(AlreadyDenied)
    ensures FindRequest(requests, id).Some? && d == Approve && FindRequest(requests, id).value.data.status != Approved ==>
      (r.Failure? <==> TimeoffBalanceService.FirstBalance(balances, FindRequest(requests, id).value.data.employeeId).None?)
    ensures FindRequest(requests, id).Some? && d == Deny && FindRequest(requests, id).value.data.status != Denied ==>
      r.Success? && r.value.1 == balances
    ensures r.Failure? ==> r.error in {NotFound, AlreadyApproved, AlreadyDenied, NullDereference}
  {
    match FindRequest(requests, id)
    case None => Failure(NotFound)
    case Some(request) =>
      if d == Approve && request.data.status == Approved then Failure(AlreadyApproved)
      else if d == Deny && request.data.status == Denied then Failure(AlreadyDenied)
      else
        var changed :=
          if d == Approve then
            TimeoffBalanceService.ChangedBalances(balances, request.data.employeeId, -StoredDays(request.data), StoredType(request.data))
          else Success(balances);
        match changed
        case Failure(e) => Failure(e)
        case Success(balances') =>
          var decided := request.(data := request.data.(status := StatusAfter(d)));
          Success((Repository.ReplaceRow(requests, decided), balances'))
  }

  /**
   * A successful decision keeps the request table's length and keys, leaves every
   * other request as it was and gives the decided request its new status.
   */
  lemma DecidedKeepsOtherRequests(
    requests: seq<Row<TimeoffRequest>>, balances: seq<Row<TimeoffBalance>>, id: int, d: Decision)
    requires Decided(requests, balances, id, d).Success?
    ensures var after := Decided(requests, balances, id, d).value.0;
      && |after| == |requests|
      && forall i :: 0 <= i < |requests| ==>
           && after[i].id == requests[i].id
           && (requests[i].id != id ==> after[i] == requests[i])
           && (requests[i].id == id ==> after[i].data.status == StatusAfter(d))
  {
  }

  /**
   * A successful Approve leaves the request with status Approved and deducts exactly its
   * days from the counter of its category; every other category keeps its value.
   */
  lemma ApproveDeducts(
    requests: seq<Row<TimeoffRequest>>, balances: seq<Row<TimeoffBalance>>, id: int, u: TimeoffType)
    requires Repository.Increasing(requests) && Repository.Increasing(balances) && u.IsNamed()
    requires Decided(requests, balances, id, Approve).Success?
    ensures var request := FindRequest(requests, id).value;
      var after := Decided(requests, balances, id, Approve).value;
      && FindRequest(after.0, id) == Some(request.(data := request.data.(status := Approved)))
      && TimeoffBalanceService.GetBalance(after.1, request.data.employeeId, u)
         == Success(TimeoffBalanceService.GetBalance(balances, request.data.employeeId, u).value
                    - (if u == StoredType(request.data) then StoredDays(request.data) else 0))
  {
    DecidedStatus(requests, balances, id, Approve);
    ApprovedBalanceOf(requests, balances, id, u);
  }

  /** The balance half of ApproveDeducts: the category's counter loses the request's days. */
  lemma ApprovedBalanceOf(
    requests: seq<Row<TimeoffRequest>>, balances: seq<Row<TimeoffBalance>>, id: int, u: TimeoffType)
    requires Repository.Increasing(balances) && u.IsNamed()
    requires Decided(requests, balances, id, Approve).Success?
    ensures var request := FindRequest(requests, id).value.data;
      TimeoffBalanceService.GetBalance(Decided(requests, balances, id, Approve).value.1, request.employeeId, u)
      == Success(TimeoffBalanceService.GetBalance(balances, request.employeeId, u).value
                 - (if u == StoredType(request) then StoredDays(request) else 0))
  {
    var request := FindRequest(requests, id).value.data;
    ApprovedBalances(requests, balances, id);
    DeductThenGetBalance(balances, request.employeeId, StoredDays(request), StoredType(request), u,
                         Decided(requests, balances, id, Approve).value.1);
  }

  /** Deducting `days` from category t moves GetBalance of t down by `days` and leaves the other categories. */
  lemma DeductThenGetBalance(
    balances: seq<Row<TimeoffBalance>>, employeeId: int, days: int, t: TimeoffType, u: TimeoffType,
    after: seq<Row<TimeoffBalance>>)
    requires Repository.Increasing(balances) && u.IsNamed()
    requires TimeoffBalanceService.ChangedBalances(balances, employeeId, -days, t) == Success(after)
    ensures TimeoffBalanceService.GetBalance(after, employeeId, u)
         == Success(TimeoffBalanceService.GetBalance(balances, employeeId, u).value - (if u == t then days else 0))
  {
    assert t.IsNamed() && TimeoffBalanceService.FirstBalance(balances, employeeId).Some?;
    TimeoffBalanceService.ChangeBalanceThenGetBalance(balances, employeeId, -days, t, u);
  }

  /** The balances a successful Approve leaves are those ChangeBalance leaves for the request's employee. */
  lemma ApprovedBalances(requests: seq<Row<TimeoffRequest>>, balances: seq<Row<TimeoffBalance>>, id: int)
    requires Decided(requests, balances, id, Approve).Success?
    ensures var request := FindRequest(requests, id).value.data;
      var changed := TimeoffBalanceService.ChangedBalances(balances, request.employeeId, -StoredDays(request), StoredType(request));
      changed.Success? && Decided(requests, balances, id, Approve).value.1 == changed.value
  {
  }

  /** A successful decision is read back as the request with the new status. */
  lemma DecidedStatus(requests: seq<Row<TimeoffRequest>>, balances: seq<Row<TimeoffBalance>>, id: int, d: Decision)
    requires Repository.Increasing(requests)
    requires Decided(requests, balances, id, d).Success?
    ensures var request := FindRequest(requests, id).value;
      FindRequest(Decided(requests, balances, id, d).value.0, id) == Some(request.(data := request.data.(status := StatusAfter(d))))
  {
    var request := FindRequest(requests, id).value;
    var decided := request.(data := request.data.(status := StatusAfter(d)));
    var k :| 0 <= k < |requests| && requests[k] == request;
    var after := Decided(requests, balances, id, d).value.0;
    Repository.ReplaceRowAt(requests, k, decided);
    Repository.ReplaceRowIncreasing(requests, decided);
    FindRequestUnique(after, id, k);
  }

  /** Deny stores Denied and moves no counter, whatever the previous status was. */
  lemma DenyKeepsBalances(requests: seq<Row<TimeoffRequest>>, balances: seq<Row<TimeoffBalance>>, id: int)
    requires Repository.Increasing(requests)
    requires Decided(requests, balances, id, Deny).Success?
    ensures var request := FindRequest(requests, id).value;
      var after := Decided(requests, balances, id, Deny).value;
      && after.1 == balances
      && FindRequest(after.0, id) == Some(request.(data := request.data.(status := Denied)))
  {
    DecidedStatus(requests, balances, id, Deny);
  }

  /**
   * Approving an approved request throws and changes nothing, so days are never deducted
   * twice; denying a denied request throws likewise.
   */
  lemma NoRepeatedDecision(requests: seq<Row<TimeoffRequest>>, balances: seq<Row<TimeoffBalance>>, id: int, d: Decision)
    requires Repository.Increasing(requests)
    requires Decided(requests, balances, id, d).Success?
    ensures var after := Decided(requests, balances, id, d).value;
      Decided(after.0, after.1, id, d) == Failure(if d == Approve then AlreadyApproved else AlreadyDenied)
  {
    DecidedStatus(requests, balances, id, d);
  }

  /**
   * Denying an approved request succeeds and refunds nothing: the balances stay as the
   * approval left them.
   */
  lemma DenyAfterApproveKeepsDeduction(requests: seq<Row<TimeoffRequest>>, balances: seq<Row<TimeoffBalance>>, id: int)
    requires Repository.Increasing(requests)
    requires Decided(requests, balances, id, Approve).Success?
    ensures var approved := Decided(requests, balances, id, Approve).value;
      && Decided(approved.0, approved.1, id, Deny).Success?
      && Decided(approved.0, approved.1, id, Deny).value.1 == approved.1
  {
    DecidedStatus(requests, balances, id, Approve);
  }

  /**
   * Approving a denied request is allowed: it fails only when the employee has no
   * balance to deduct from.
   */
  lemma ApproveAfterDeny(requests: seq<Row<TimeoffRequest>>, balances: seq<Row<TimeoffBalance>>, id: int)
    requires Repository.Increasing(requests)
    requires Decided(requests, balances, id, Deny).Success?
    ensures var denied := Decided(requests, balances, id, Deny).value;
      var employeeId := FindRequest(requests, id).value.data.employeeId;
      Decided(denied.0, denied.1, id, Approve).Success? <==> TimeoffBalanceService.FirstBalance(balances, employeeId).Some?
  {
    DecidedStatus(requests, balances, id, Deny);
  }

  /**
   * A worked example, first half. An employee with the default 20/10/5/5 balance
   * applies for vacation from day 1 to day 6: the 5-day request is accepted as Pending.
   * Applying for 25 vacation days is refused before anything is written.
   */
  lemma ApplyExample()
    ensures var employees := [Row(1, false, Employee("user", None, 1))];
      var balances := [Row(1, false, TimeoffBalance(1, 20, 10, 5, 5))];
      && ApplyDecision(employees, balances, "user", NewApplication("Vacation", 1, 6, ""))
         == Success(Some(TimeoffRequest(1, "Vacation", 1, 6, Pending, "")))
      && ApplyDecision(employees, balances, "user", NewApplication("Vacation", 1, 26, ""))
         == Failure(InsufficientBalance)
  {
    var employees := [Row(1, false, Employee("user", None, 1))];
    var balances := [Row(1, false, TimeoffBalance(1, 20, 10, 5, 5))];
    assert HasUser("user")(employees[0]);
    assert EmployeeOfUser(employees, "user") == Some(employees[0]);
    assert ParseTimeoffType("Vacation") == Some(Vacation);
    TimeoffBalanceService.FirstBalanceIsFirstMatch(balances, 1, 0);
    assert TimeoffBalanceService.GetBalance(balances, 1, Vacation) == Success(20);
  }

  /**
   * A worked example, second half. Approving that 5-day vacation request leaves 15
   * vacation days and 5 used days; approving it again is refused.
   */
  lemma ApproveExample()
    ensures var balances := [Row(1, false, TimeoffBalance(1, 20, 10, 5, 5))];
      var requests := [Row(1, false, TimeoffRequest(1, "Vacation", 1, 6, Pending, ""))];
      var approved := Decided(requests, balances, 1, Approve);
      && approved.Success?
      && TimeoffBalanceService.GetBalance(approved.value.1, 1, Vacation) == Success(15)
      && TimeoffBalanceService.CalculateUsedDays(approved.value.1, 1) == Success(5)
      && Decided(approved.value.0, approved.value.1, 1, Approve) == Failure(AlreadyApproved)
  {
    var balances := [Row(1, false, TimeoffBalance(1, 20, 10, 5, 5))];
    var requests := [Row(1, false, TimeoffRequest(1, "Vacation", 1, 6, Pending, ""))];
    TimeoffBalanceService.FirstBalanceIsFirstMatch(balances, 1, 0);
    FindRequestUnique(requests, 1, 0);
    assert ParseTimeoffType("Vacation") == Some(Vacation);
    assert StoredType(requests[0].data) == Vacation && StoredDays(requests[0].data) == 5;
    assert Decided(requests, balances, 1, Approve).Success?;
    ApprovedBalances(requests, balances, 1);
    ApproveDeducts(requests, balances, 1, Vacation);
    TimeoffBalanceService.UsedDaysOfFirstRow(balances, 1, 0);
    TimeoffBalanceService.UsedDaysAfterChange(balances, 1, -5, Vacation, 0);
    NoRepeatedDecision(requests, balances, 1, Approve);
  }

  /**
   * ApproveOrDenyTimeoffRequest: look the request up, refuse a repeated decision,
   * deduct the days on approval, then store the new status.
   */
  method ApproveOrDenyTimeoffRequest(
    requests: Repository.TimeCraftRepository<TimeoffRequest>,
    balances: Repository.TimeCraftRepository<TimeoffBalance>,
    id: int, d: Decision) returns (o: Outcome)
    requires requests.Valid() && balances.Valid()
    modifies requests, balances
    ensures requests.Valid() && balances.Valid()
    ensures requests.nextId == old(requests.nextId) && balances.nextId == old(balances.nextId)
    ensures match Decided(old(requests.rows), old(balances.rows), id, d)
      case Failure(e) => o == Fail(e) && requests.rows == old(requests.rows) && balances.rows == old(balances.rows)
      case Success(tables) => o == Pass && requests.rows == tables.0 && balances.rows == tables.1
  {
    var found := FindRequest(requests.rows, id);
    if found.None? {
      return Fail(NotFound);
    }
    var request := found.value;
    if d == Approve && request.data.status == Approved {
      return Fail(AlreadyApproved);
    }
    if d == Deny && request.data.status == Denied {
      return Fail(AlreadyDenied);
    }
    o := WriteDecision(requests, balances, request, d);
  }

  /**
   * The writes of ApproveOrDenyTimeoffRequest once the request is found and the
   * decision is not a repeat: on approval the days leave the balance (which throws
   * when the employee has none), then the request takes the new status.
   */
  method WriteDecision(
    requests: Repository.TimeCraftRepository<TimeoffRequest>,
    balances: Repository.TimeCraftRepository<TimeoffBalance>,
    request: Row<TimeoffRequest>, d: Decision) returns (o: Outcome)
    requires requests.Valid() && balances.Valid()
    modifies requests, balances
    ensures requests.Valid() && balances.Valid()
    ensures requests.nextId == old(requests.nextId) && balances.nextId == old(balances.nextId)
    ensures var changed := if d == Approve then
        TimeoffBalanceService.ChangedBalances(old(balances.rows), request.data.employeeId, -StoredDays(request.data), StoredType(request.data))
      else Success(old(balances.rows));
      match changed
      case Failure(e) => o == Fail(e) && requests.rows == old(requests.rows) && balances.rows == old(balances.rows)
      case Success(balances') =>
        && o == Pass && balances.rows == balances'
        && requests.rows == Repository.ReplaceRow(old(requests.rows), request.(data := request.data.(status := StatusAfter(d))))
  {
    if d == Approve {
      var changed := TimeoffBalanceService.ChangeBalance(balances, request.data.employeeId, -StoredDays(request.data), StoredType(request.data));
      if changed.Fail? {
        return changed;
      }
    }
    requests.Update(request.(data := request.data.(status := StatusAfter(d))));
    o := Pass;
  }
}
