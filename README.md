# TimeCraft leave bookkeeping in Dafny

This project models the core of the TimeCraft HR back end. The core is the leave
(time-off) bookkeeping and the soft-delete record tables it sits on.

- **Balances.** Each employee has one `TimeoffBalance` row with four integer counters:
  Vacation, Sick, Personal and Other.
- **Requests.** Each `TimeoffRequest` row has a category name, start and end day, a
  status string (`Pending`, `Approved` or `Denied`) and a comment.
- **Applying** for leave resolves the user's employee, parses the category, computes
  `End - Start` days, and refuses the request when the days are more than the
  category's counter. Otherwise it inserts the request. No counter moves.
- **Approving** deducts the days from the request's category counter and stores
  `Approved`. **Denying** stores `Denied` and moves nothing. Repeating the stored
  decision throws.
- **Creating an employee** also stores a balance row with 20/10/5/5 days. The used
  days are `40 - (sum of the four counters)`.
- **Every service** (employee, balance, position, salary, queued e-mail, time worked)
  hides rows whose `Deleted` flag is set. Update copies a fixed list of columns onto a
  visible row. Delete sets the flag or removes the row. Listing returns the page
  `Max(page, 1)` of the visible rows.

## How the model is laid out

- `entities.dfy` (module `Entities`): the entities as datatypes. `Row<T>` carries the
  `Id` and `Deleted` columns every entity inherits from `BaseEntity`. It also holds the
  `TimeoffType` enum and its parser, and the `Error` datatype that stands for the
  exceptions the services throw.
- `linq.dfy` (module `Linq`): the LINQ operators used: `Where`, `Skip`, `Take`,
  `FirstOrDefault`, `OrderBy` and `OrderByDescending`, plus the page slice.
- `repository.dfy` (module `Repository`): `TimeCraftRepository<TEntity>` is a class.
  Its table is `rows: seq<Row<T>>` in store order, and `nextId` is the identity value
  the database gives the next inserted row. Queries are functions over `rows`.
  `Create`, `CreateRange`, `CreateRangeList`, `Delete` and `Update` are methods that
  reassign `rows`. `Valid()` says that keys are positive, increasing and below `nextId`.
- `crud_service.dfy` (module `CrudService`): the soft-delete pattern, written once.
  The six services have identical `GetById`, `GetAllAsync`, `Create` and `Delete`,
  and their `Update` differs only in the columns it copies. So:
  - `CrudService.GetById` is `GetById` of EmployeeService.cs:23-28,
    TimeoffBalanceService.cs:26-31, PositionService.cs:22-27, SalaryService.cs:22-27,
    QueuedEmailService.cs:23-28 and TimeWorkedService.cs:22-27.
  - `CrudService.GetAllAsync` is `GetAllAsync` of all six services.
  - `CrudService.Search` is `SearchEmployees` and `SearchQueuedEmails`.
  - `CrudService.Create` is `Create` of every service except EmployeeService.
  - `CrudService.Delete` is `Delete` of all six services.
  - `CrudService.UpdatedRows` and `CrudService.Update` take the service's column list
    as a `merge` function.
- One module per service (`employee_service.dfy`, `timeoff_balance_service.dfy`,
  `position_service.dfy`, `salary_service.dfy`, `queued_email_service.dfy`,
  `time_worked_service.dfy`). Each gives its `Merge` (the columns its `Update` copies),
  a typed `Update`, and a lemma about what Update leaves in the row.
- `leave_manager_service.dfy` (module `LeaveManagerService`) and
  `time_tracker_service.dfy` (module `TimeTracker`, class `TimeTrackerService` with the
  `TOTAL_USED_DAYS` field).

Each state-changing method is proved against a specification function of the old
tables: `ApplyDecision`, `Decided`, `ChangedBalances`, `UpdatedRows` and `DeletedRows`.
The lemmas about those functions carry the properties.

Modelling decisions:

- Dates are whole day numbers. `(EndDate - StartDate).Days` is integer subtraction.
- `TimeoffType` has the four members plus `Unnamed`. `Unnamed` stands for an integer
  that names no member, which the controllers can bind. Such a value reaches the
  `default:` branches that throw.
- `GetByConditionPaginated` is called with three arguments by the services, while its
  declaration (TimeCraftRepository.cs:32) also takes an `orderBy`. The services are
  modelled as unordered pagination. The repository function itself takes an optional
  ordering key.
- `TimeTrackerService` calls `ExceedsBalance`, which is private to
  `LeaveManagerService`. Both use the one function `LeaveManagerService.ExceedsBalance`.
- The default page number and size are assumed to be 1 and 10.
  `TimeCraft.Infrastructure.Constants.CommonConstants` is not part of this model.
- When `Enum.TryParse` fails in Approve, the category is `default(TimeoffType)`. The
  enum file is not part of this model, so this is taken to be `Vacation`. Every request
  stored by Apply has a parsing category, so this matters only for requests written
  some other way.

Points where the model follows the code closely:

- A new request takes the status of the incoming application, which defaults to
  `Pending` (TimeoffRequestApplicationDto.cs:15). `ApplyDecision` stores `app.status`,
  and `NewApplicationIsPending` shows that the default gives `Pending`.
- Apply finds the user's employee without a `Deleted` filter (LeaveManagerService.cs:36).
  A soft-deleted employee can still apply.
- `CalculateUsedDays` reads the employee's first balance row whether or not it is
  deleted. `GetBalance` and `ChangeBalance` skip deleted rows.
  `SoftDeleteKeepsUsedDays` shows the consequence.

## Model

| member | source | states |
|---|---|---|
| `Entities.ParseTimeoffType` | TimeCraft.Core/Services/LeaveManager/LeaveManagerService.cs:46-50 | The parse succeeds exactly on the name of one of the four categories and gives that category; any other string gives no category |
| `Entities.TimeoffBalance.Added` | TimeCraft.Core/Services/TimeoffBalanceService/TimeoffBalanceService.cs:120-135 | The named category's counter moves by `quantity`, every other category and the employee stay, and the total moves by `quantity` |
| `Entities.ParseTypeName` | TimeCraft.Core/Services/LeaveManager/LeaveManagerService.cs:46 | Parsing a category's own name gives that category back |
| `Linq.Where` | TimeCraft.Infrastructure/Persistence/Repository/TimeCraftRepository.cs:18 | The filter is no longer than its input and every element it yields satisfies the predicate |
| `Linq.WhereSubset` | TimeCraft.Infrastructure/Persistence/Repository/TimeCraftRepository.cs:18 | Every element the filter yields is an element of the input |
| `Linq.WhereComplete` | TimeCraft.Infrastructure/Persistence/Repository/TimeCraftRepository.cs:18 | Every input element satisfying the predicate is yielded |
| `Linq.WhereAppend` | TimeCraft.Infrastructure/Persistence/Repository/TimeCraftRepository.cs:18 | Filtering a concatenation is concatenating the filters, so store order is kept |
| `Linq.WhereWhere` | TimeCraft.Core/Services/TimeoffBalanceService/TimeoffBalanceService.cs:48-53 | Two successive filters equal one filter by the conjunction |
| `Linq.WhereFirst` | TimeCraft.Core/Services/TimeoffBalanceService/TimeoffBalanceService.cs:118 | The first element the filter yields is the input element at the first matching index |
| `Linq.WhereFirstIndex` | TimeCraft.Core/Services/TimeoffBalanceService/TimeoffBalanceService.cs:118 | A non-empty filter begins with the element at the first matching index |
| `Linq.Skip` | TimeCraft.Infrastructure/Persistence/Repository/TimeCraftRepository.cs:49 | Skip drops the first `max(n, 0)` elements, at most all of them, and keeps the rest in order |
| `Linq.Take` | TimeCraft.Infrastructure/Persistence/Repository/TimeCraftRepository.cs:49 | Take keeps a prefix of length `min(max(n, 0), |s|)` |
| `Linq.Page` | TimeCraft.Infrastructure/Persistence/Repository/TimeCraftRepository.cs:49 | For page >= 1 the page is the contiguous run starting at `(page-1)*pageSize`, of length `pageSize` or what is left; a non-positive size gives nothing |
| `Linq.FirstOfFirstPage` | TimeCraft.Core/Services/TimeoffBalanceService/TimeoffBalanceService.cs:118 | The first element of page 1 is the first element of the whole query |
| `Linq.Wrap32` | TimeCraft.Infrastructure/Persistence/Repository/TimeCraftRepository.cs:49 | The wrapped value is a 32-bit integer congruent to the input, and equals it when it already fits |
| `Linq.PageWithInt32Offset` | TimeCraft.Infrastructure/Persistence/Repository/TimeCraftRepository.cs:49 | The page as computed with a 32-bit offset: at most `pageSize` elements, and the same as `Page` whenever the offset fits in 32 bits |
| `Linq.Int32OffsetRepeatsFirstPage` | TimeCraft.Infrastructure/Persistence/Repository/TimeCraftRepository.cs:49 | With the offset computed in 32 bits as written, page 65537 of size 65536 returns the first page again, where the unbounded offset gives an empty page |
| `Linq.PagePastTheEndIsEmpty` | TimeCraft.Infrastructure/Persistence/Repository/TimeCraftRepository.cs:49 | With the intended offset, a page that starts past the end is empty |
| `Linq.InsertByKey` | TimeCraft.Infrastructure/Persistence/Repository/TimeCraftRepository.cs:44-47 | Inserting into a key-sorted sequence keeps it sorted and adds exactly the element |
| `Linq.OrderBy` | TimeCraft.Infrastructure/Persistence/Repository/TimeCraftRepository.cs:44-47 | The result is sorted by ascending key and is a permutation of the input |
| `Linq.OrderByDescending` | TimeCraft.Infrastructure/Persistence/Repository/TimeCraftRepository.cs:44-47 | The result is sorted by descending key and is a permutation of the input |
| `Repository.WhereIncreasing` | TimeCraft.Infrastructure/Persistence/Repository/TimeCraftRepository.cs:18 | A filter of a table with increasing keys has increasing keys |
| `Repository.WhereWellFormed` | TimeCraft.Infrastructure/Persistence/Repository/TimeCraftRepository.cs:82-85 | Removing rows by a filter keeps the table invariant |
| `Repository.AtMostOneWithId` | TimeCraft.Infrastructure/Persistence/Repository/TimeCraftRepository.cs:59-62 | With increasing keys at most one row holds a key |
| `Repository.FirstTwoIncreasing` | TimeCraft.Infrastructure/Persistence/Repository/TimeCraftRepository.cs:59-62 | In a table with increasing keys the first key is below the second |
| `Repository.GetByCondition` | TimeCraft.Infrastructure/Persistence/Repository/TimeCraftRepository.cs:16-30 | Exactly the stored rows satisfying the condition are returned; includes and no-tracking change no membership |
| `Repository.GetById` | TimeCraft.Infrastructure/Persistence/Repository/TimeCraftRepository.cs:59-62 | Exactly the stored rows that hold the key, in both directions, deleted or not; at most one when keys are increasing |
| `Repository.GetByConditionPaginated` | TimeCraft.Infrastructure/Persistence/Repository/TimeCraftRepository.cs:32-50 | At most `pageSize` rows, each a stored row satisfying the condition; the page, clamped to at least 1, of the filtered rows in store order without an ordering key, and of the filtered rows ordered by the key (descending unless told otherwise) with one, in which case the page is sorted by the key |
| `Repository.Ordered` | TimeCraft.Infrastructure/Persistence/Repository/TimeCraftRepository.cs:44-47 | The query in the requested order is a permutation of the query |
| `Repository.PaginatedClampsPage` | TimeCraft.Infrastructure/Persistence/Repository/TimeCraftRepository.cs:38-42 | A page of zero or below gives the same result as page 1 |
| `Repository.SliceKeepsOrder` | TimeCraft.Infrastructure/Persistence/Repository/TimeCraftRepository.cs:49 | A page of a sorted sequence is sorted |
| `Repository.CountMatchesGetByCondition` | TimeCraft.Infrastructure/Persistence/Repository/TimeCraftRepository.cs:102-105 | Count equals the number of rows GetByCondition returns |
| `Repository.Count` | TimeCraft.Infrastructure/Persistence/Repository/TimeCraftRepository.cs:102-105 | At most the number of rows, and zero exactly when no row satisfies the condition |
| `Repository.ReplaceRowAt` | TimeCraft.Infrastructure/Persistence/Repository/TimeCraftRepository.cs:92-95 | With unique keys, updating by key replaces the one row holding the key |
| `Repository.ReplaceRowIncreasing` | TimeCraft.Infrastructure/Persistence/Repository/TimeCraftRepository.cs:92-95 | Updating a row keeps keys increasing |
| `Repository.ReplaceRowWellFormed` | TimeCraft.Infrastructure/Persistence/Repository/TimeCraftRepository.cs:92-95 | Updating a row keeps the table invariant |
| `Repository.RemoveRow` | TimeCraft.Infrastructure/Persistence/Repository/TimeCraftRepository.cs:82-85 | After removal no row holds the key |
| `Repository.Fresh` | TimeCraft.Infrastructure/Persistence/Repository/TimeCraftRepository.cs:69-72 | One new row per entity |
| `Repository.FreshAppend` | TimeCraft.Infrastructure/Persistence/Repository/TimeCraftRepository.cs:74-80 | Keying two lists in turn is keying their concatenation |
| `Repository.FreshWellFormed` | TimeCraft.Infrastructure/Persistence/Repository/TimeCraftRepository.cs:64-72 | Appending rows keyed from the next identity value keeps the table invariant |
| `Repository.TimeCraftRepository.Create` | TimeCraft.Infrastructure/Persistence/Repository/TimeCraftRepository.cs:64-67 | The entity is appended as a visible row under the next identity value, which is returned |
| `Repository.TimeCraftRepository.CreateRange` | TimeCraft.Infrastructure/Persistence/Repository/TimeCraftRepository.cs:69-72 | The entities are appended in order under consecutive keys |
| `Repository.TimeCraftRepository.CreateRangeList` | TimeCraft.Infrastructure/Persistence/Repository/TimeCraftRepository.cs:74-80 | Every entity of every inner list is appended, list after list, under consecutive keys |
| `Repository.TimeCraftRepository.Delete` | TimeCraft.Infrastructure/Persistence/Repository/TimeCraftRepository.cs:82-85 | The row with the entity's key is removed and the others keep their order |
| `Repository.TimeCraftRepository.Update` | TimeCraft.Infrastructure/Persistence/Repository/TimeCraftRepository.cs:92-95 | The row with the entity's key is replaced by the entity; nothing else changes |
| `CrudService.GetById` | TimeCraft.Core/Services/EmployeeService/EmployeeService.cs:23-28 | Returns a row of the table with the key whose Deleted flag is clear, and null exactly when no such row exists |
| `CrudService.VisibleIsFound` | TimeCraft.Core/Services/EmployeeService/EmployeeService.cs:25 | A visible row with the key makes the query non-empty |
| `CrudService.GetByIdUnique` | TimeCraft.Core/Services/EmployeeService/EmployeeService.cs:25 | With unique keys, GetById returns the one visible row holding the key |
| `CrudService.Search` | TimeCraft.Core/Services/EmployeeService/EmployeeService.cs:39-48 | The page `Max(page, 1)` of the visible rows in store order: at most `pageSize` rows, each stored and not deleted |
| `CrudService.GetAllAsync` | TimeCraft.Core/Services/PositionService/PositionService.cs:29-36 | The repository's unordered page of non-deleted rows, with the page clamped to 1, equals Search's page |
| `CrudService.UpdatedRows` | TimeCraft.Core/Services/EmployeeService/EmployeeService.cs:60-76 | Update throws exactly when no visible row holds the key; otherwise every other row is unchanged and keys stay in place |
| `CrudService.UpdateThenGetById` | TimeCraft.Core/Services/EmployeeService/EmployeeService.cs:62-75 | After Update, GetById returns the row, still visible, with the merged columns |
| `CrudService.UpdateKeepsOtherKeys` | TimeCraft.Core/Services/EmployeeService/EmployeeService.cs:74 | Update changes what GetById returns for no other key |
| `CrudService.WhereSameOnKey` | TimeCraft.Core/Services/EmployeeService/EmployeeService.cs:25 | Tables that agree on the rows of a key agree on the rows found for it |
| `CrudService.DeletedRows` | TimeCraft.Core/Services/EmployeeService/EmployeeService.cs:78-99 | Delete throws exactly when no visible row holds the key; a soft delete sets only that row's flag, a hard delete removes only that row; the key is then hidden |
| `CrudService.SecondDeleteFails` | TimeCraft.Core/Services/EmployeeService/EmployeeService.cs:80-91 | After a delete of either kind GetById returns null and a second delete throws |
| `CrudService.DeleteKeepsOtherKeys` | TimeCraft.Core/Services/EmployeeService/EmployeeService.cs:92-95 | A delete changes what GetById returns for no other key |
| `CrudService.WhereRemoveOther` | TimeCraft.Core/Services/EmployeeService/EmployeeService.cs:94 | Removing one key's rows leaves the rows of another key as they were |
| `CrudService.Create` | TimeCraft.Core/Services/QueuedEmailService/QueuedEmailService.cs:50-56 | The entity is stored under the next identity value, which is returned, and GetById finds it at once |
| `CrudService.Update` | TimeCraft.Core/Services/PositionService/PositionService.cs:46-62 | The table becomes what UpdatedRows gives, or the call throws and the table is unchanged |
| `CrudService.Delete` | TimeCraft.Core/Services/PositionService/PositionService.cs:64-85 | The table becomes what DeletedRows gives, or the call throws and the table is unchanged |
| `PositionService.UpdateCopiesColumns` | TimeCraft.Core/Services/PositionService/PositionService.cs:54-56 | After Update the position reads back with the incoming role, description and contract conditions |
| `PositionService.Update` | TimeCraft.Core/Services/PositionService/PositionService.cs:46-62 | Throws on a missing or deleted key, otherwise overwrites the three columns of that row only |
| `SalaryService.UpdateCopiesColumns` | TimeCraft.Core/Services/SalaryService/SalaryService.cs:54-55 | After Update the salary reads back with the incoming gross and net amounts and its own contract type and position |
| `SalaryService.Update` | TimeCraft.Core/Services/SalaryService/SalaryService.cs:46-60 | Throws on a missing or deleted key, otherwise overwrites the two amounts of that row only |
| `QueuedEmailService.UpdateCopiesColumns` | TimeCraft.Core/Services/QueuedEmailService/QueuedEmailService.cs:66-68 | After Update the e-mail reads back with the incoming CCs, subject and body and its own recipient, queue date, tries and status |
| `QueuedEmailService.Update` | TimeCraft.Core/Services/QueuedEmailService/QueuedEmailService.cs:58-74 | Throws on a missing or deleted key, otherwise overwrites CCs, subject and body of that row only |
| `TimeWorkedService.UpdateCopiesColumns` | TimeCraft.Core/Services/TimeWorkedService/TimeWorkedService.cs:54-60 | After Update the entry reads back with every incoming column except the employee, which stays |
| `TimeWorkedService.Update` | TimeCraft.Core/Services/TimeWorkedService/TimeWorkedService.cs:46-66 | Throws on a missing or deleted key, otherwise overwrites the seven columns of that row only |
| `TimeoffBalanceService.UpdateCopiesColumns` | TimeCraft.Core/Services/TimeoffBalanceService/TimeoffBalanceService.cs:74-77 | After Update the balance reads back with the four incoming counters and its own employee |
| `TimeoffBalanceService.Update` | TimeCraft.Core/Services/TimeoffBalanceService/TimeoffBalanceService.cs:66-83 | Throws on a missing or deleted key, otherwise overwrites the four counters of that row only |
| `TimeoffBalanceService.SearchTimeoffBalances` | TimeCraft.Core/Services/TimeoffBalanceService/TimeoffBalanceService.cs:42-56 | The page `Max(page, 1)` of the visible rows, filtered by employee only for a positive id, as one filter and one slice; every row returned is stored and matches |
| `TimeoffBalanceService.FirstBalance` | TimeCraft.Core/Services/TimeoffBalanceService/TimeoffBalanceService.cs:118 | The first visible balance of the employee in store order, null exactly when there is none |
| `TimeoffBalanceService.FirstBalanceIsFirstOfSearch` | TimeCraft.Core/Services/TimeoffBalanceService/TimeoffBalanceService.cs:118 | The balance looked up is the first row of SearchTimeoffBalances on the default page |
| `TimeoffBalanceService.FirstBalanceIsFirstMatch` | TimeCraft.Core/Services/TimeoffBalanceService/TimeoffBalanceService.cs:143 | The balance found is the row at the first matching index |
| `TimeoffBalanceService.GetBalance` | TimeCraft.Core/Services/TimeoffBalanceService/TimeoffBalanceService.cs:141-158 | An undefined category throws; a missing balance throws; otherwise the stored counter of the category |
| `TimeoffBalanceService.ChangedBalances` | TimeCraft.Core/Services/TimeoffBalanceService/TimeoffBalanceService.cs:116-139 | Throws as GetBalance does; otherwise only the found row changes, and keys stay in place |
| `TimeoffBalanceService.ChangeBalance` | TimeCraft.Core/Services/TimeoffBalanceService/TimeoffBalanceService.cs:116-139 | The table becomes what ChangedBalances gives, or the call throws and the table is unchanged |
| `TimeoffBalanceService.ChangeBalanceThenGetBalance` | TimeCraft.Core/Services/TimeoffBalanceService/TimeoffBalanceService.cs:116-158 | After ChangeBalance by `q`, GetBalance of that category is the old value plus `q`, with no lower bound, and every other category is unchanged |
| `TimeoffBalanceService.CalculateUsedDays` | TimeCraft.Core/Services/TimeoffBalanceService/TimeoffBalanceService.cs:160-173 | Throws exactly when no row, deleted or not, belongs to the employee |
| `TimeoffBalanceService.UsedDaysOfFirstRow` | TimeCraft.Core/Services/TimeoffBalanceService/TimeoffBalanceService.cs:161-172 | The used days are 40 minus the sum of the four counters of the employee's first row, whatever its Deleted flag |
| `TimeoffBalanceService.UsedDaysOfFirst` | TimeCraft.Core/Services/TimeoffBalanceService/TimeoffBalanceService.cs:161-172 | The used days are read from the first row of the employee in store order |
| `TimeoffBalanceService.UsedDaysAfterChange` | TimeCraft.Core/Services/TimeoffBalanceService/TimeoffBalanceService.cs:122-170 | Changing a counter by `q` lowers the used days by `q` |
| `TimeoffBalanceService.UsedDaysSameColumns` | TimeCraft.Core/Services/TimeoffBalanceService/TimeoffBalanceService.cs:161-170 | Tables with the same columns row by row give the same used days |
| `TimeoffBalanceService.FirstOfEmployeeSameColumns` | TimeCraft.Core/Services/TimeoffBalanceService/TimeoffBalanceService.cs:161 | Tables with the same columns row by row have the same first row of an employee |
| `TimeoffBalanceService.SoftDeleteKeepsUsedDays` | TimeCraft.Core/Services/TimeoffBalanceService/TimeoffBalanceService.cs:161 | Soft-deleting a balance row changes nobody's used days, because the query has no Deleted filter |
| `EmployeeService.UpdateCopiesColumns` | TimeCraft.Core/Services/EmployeeService/EmployeeService.cs:68-70 | After Update the employee reads back with the incoming user, salary and position |
| `EmployeeService.Update` | TimeCraft.Core/Services/EmployeeService/EmployeeService.cs:60-76 | Throws on a missing or deleted key, otherwise overwrites the three references of that row only |
| `EmployeeService.DefaultBalance` | TimeCraft.Core/Services/EmployeeService/EmployeeService.cs:103-116 | The default balance belongs to the employee and its counters sum to the yearly total of 40 |
| `EmployeeService.NewEmployeeBalance` | TimeCraft.Core/Services/EmployeeService/EmployeeService.cs:103-116 | A new employee with no earlier balance row reads back 20/10/5/5 and has used 0 days |
| `EmployeeService.Create` | TimeCraft.Core/Services/EmployeeService/EmployeeService.cs:50-58 | The employee is stored and returned by key, then exactly one default balance row is stored for that key; with no earlier row for the key, used days are 0 |
| `LeaveManagerService.ExceedsBalance` | TimeCraft.Core/Services/LeaveManager/LeaveManagerService.cs:230-254 | An undefined category throws; a missing balance throws; otherwise true exactly when the days are strictly more than the category's counter |
| `LeaveManagerService.ExceedsBalanceIsAboveGetBalance` | TimeCraft.Core/Services/LeaveManager/LeaveManagerService.cs:230-254 | On the employee's balance, ExceedsBalance throws what GetBalance throws and otherwise is `days > GetBalance`, so exactly the remaining days are allowed |
| `LeaveManagerService.EmployeeOfUser` | TimeCraft.Core/Services/LeaveManager/LeaveManagerService.cs:36 | The first employee linked to the user, deleted or not; null exactly when none is linked |
| `LeaveManagerService.EmployeeOfUserIsFirstMatch` | TimeCraft.Core/Services/LeaveManager/LeaveManagerService.cs:36 | The employee found is the one at the first index, in store order, whose user matches |
| `LeaveManagerService.ApplyDecision` | TimeCraft.Core/Services/LeaveManager/LeaveManagerService.cs:34-72 | No linked employee gives false; an unparsable category throws; a missing balance throws; days above GetBalance throw; otherwise exactly one request for the resolved employee, with the application's status, is to be inserted |
| `LeaveManagerService.NewApplicationIsPending` | TimeCraft.Domain/Dtos/LeaveManagerDtos/TimeoffRequestApplicationDto.cs:15 | An application without a status is stored as Pending |
| `LeaveManagerService.ApplyForTimeoffRequest` | TimeCraft.Core/Services/LeaveManager/LeaveManagerService.cs:34-72 | Only the request table may change: it gains exactly the decided request when the result is true, and is unchanged when the result is false or the call throws; no balance moves |
| `LeaveManagerService.FindRequest` | TimeCraft.Core/Services/LeaveManager/LeaveManagerService.cs:87-94 | A stored request with the id, deleted or not; null exactly when none holds it |
| `LeaveManagerService.FindRequestUnique` | TimeCraft.Core/Services/LeaveManager/LeaveManagerService.cs:87-89 | With unique keys the request found is the one holding the id |
| `LeaveManagerService.StoredType` | TimeCraft.Core/Services/LeaveManager/LeaveManagerService.cs:111 | The category deducted from is a named one, the parsed one when the stored name parses |
| `LeaveManagerService.Decided` | TimeCraft.Core/Services/LeaveManager/LeaveManagerService.cs:85-122 | A missing id throws; a repeated Approve or Deny throws; Approve throws exactly when the employee has no balance; Deny moves no counter |
| `LeaveManagerService.DecidedKeepsOtherRequests` | TimeCraft.Core/Services/LeaveManager/LeaveManagerService.cs:118-122 | On success the request table keeps its length and keys, every other request is unchanged, and the decided one has the new status |
| `LeaveManagerService.ApprovedBalances` | TimeCraft.Core/Services/LeaveManager/LeaveManagerService.cs:109-116 | A successful Approve leaves the balances ChangeBalance gives for minus the request's days |
| `LeaveManagerService.ApproveDeducts` | TimeCraft.Core/Services/LeaveManager/LeaveManagerService.cs:109-118 | After Approve the request reads Approved, its category's counter is lower by exactly `End - Start`, and every other counter is unchanged |
| `LeaveManagerService.ApprovedBalanceOf` | TimeCraft.Core/Services/LeaveManager/LeaveManagerService.cs:109-116 | After a successful Approve, GetBalance of each category is its old value less the request's days for the request's category and unchanged for the others |
| `LeaveManagerService.DeductThenGetBalance` | TimeCraft.Core/Services/LeaveManager/LeaveManagerService.cs:115 | ChangeBalance by minus `days` lowers GetBalance of its category by `days` and leaves every other category as it was |
| `LeaveManagerService.DecidedStatus` | TimeCraft.Core/Services/LeaveManager/LeaveManagerService.cs:118-122 | After a decision the request reads back with the new status and its other columns unchanged |
| `LeaveManagerService.DenyKeepsBalances` | TimeCraft.Core/Services/LeaveManager/LeaveManagerService.cs:101-122 | After Deny the request reads Denied and the balance table is unchanged |
| `LeaveManagerService.NoRepeatedDecision` | TimeCraft.Core/Services/LeaveManager/LeaveManagerService.cs:96-104 | Approving an approved request, or denying a denied one, throws, so days are never deducted twice |
| `LeaveManagerService.DenyAfterApproveKeepsDeduction` | TimeCraft.Core/Services/LeaveManager/LeaveManagerService.cs:101-118 | Denying an approved request succeeds and refunds nothing |
| `LeaveManagerService.ApproveAfterDeny` | TimeCraft.Core/Services/LeaveManager/LeaveManagerService.cs:96-118 | Approving a denied request is allowed and fails only when the employee has no balance |
| `LeaveManagerService.ApplyExample` | TimeCraft.Core/Services/LeaveManager/LeaveManagerService.cs:34-72 | With 20/10/5/5, a 5-day vacation application is stored Pending and a 25-day one is refused for lack of balance |
| `LeaveManagerService.ApproveExample` | TimeCraft.Core/Services/LeaveManager/LeaveManagerService.cs:85-122 | Approving the 5-day vacation leaves 15 vacation days and 5 used days, and approving it again throws |
| `LeaveManagerService.ApproveOrDenyTimeoffRequest` | TimeCraft.Core/Services/LeaveManager/LeaveManagerService.cs:75-122 | The request and balance tables become what Decided gives, or the call throws and neither changes |
| `LeaveManagerService.WriteDecision` | TimeCraft.Core/Services/LeaveManager/LeaveManagerService.cs:109-122 | On approval the balance table becomes ChangedBalances with the request's days deducted, or the call throws with neither table changed; then the request row is replaced by the one with the new status |
| `TimeTracker.TimeoffPossible` | TimeCraft.Core/Services/TimeTracker/TimeTrackerService.cs:28-33 | Throws what GetBalance throws, otherwise true exactly when the days are at most the category's counter |
| `TimeTracker.TimeoffPossibleIsApplyGate` | TimeCraft.Core/Services/TimeTracker/TimeTrackerService.cs:32 | TimeoffPossible is true exactly when Apply accepts the same days, false exactly when Apply refuses them for lack of balance, and fails exactly when Apply fails otherwise |
| `TimeTracker.TimeTrackerService.constructor` | TimeCraft.Core/Services/TimeTracker/TimeTrackerService.cs:13 | TOTAL_USED_DAYS starts at -1 |
| `TimeTracker.TimeTrackerService.IncreaseUsedDays` | TimeCraft.Core/Services/TimeTracker/TimeTrackerService.cs:21-26 | TOTAL_USED_DAYS becomes the used days plus the quantity; a missing balance row throws and leaves the field unchanged; no balance row changes |

## Left out

- Notification publishing (`PublishTimeoffRequestForUser`, `PublishTimeoffRequestForHR`,
  `PublishTimeoffRequestStatus`) is left out. It is message-broker I/O. So is the user
  lookup at LeaveManagerService.cs:37, which only feeds the messages. A null user
  dereferenced there after the insert is therefore not modelled.
- `ApplyForTimeoffRequest` returns `Task<bool>`. The model's `Result<bool, Error>` has
  `Failure` standing for the thrown exception.
- `Entities.ParseTimeoffType` accepts exactly the four member names. `Enum.TryParse`
  also accepts numeric strings, comma-separated lists and surrounding white space.
  These are not modelled, because the enum's numeric values are not part of this model.
- `TimeoffBalanceService.ChangedBalances` adds to unbounded integers. The 32-bit
  wrap-around of `+=` on a counter is not modelled.
- `LeaveManagerService.RequestedDays` subtracts day numbers. The truncation of
  `TimeSpan.Days` on times of day is not modelled, because dates are whole days.
- `Linq.Page` is used by every query with an unbounded offset. The source computes it
  in 32 bits. See Findings; the as-written form is `Linq.PageWithInt32Offset`.
- `Linq.Page` returns an empty page for a page size of zero or below, and clamps a
  negative offset to zero. Entity Framework translates `Skip`/`Take` to SQL Server's
  `OFFSET`/`FETCH`, and the database raises an error for a `FETCH` count below 1 or a
  negative `OFFSET`. That provider error is not modelled, so
  `Repository.GetByConditionPaginated`, `CrudService.Search`, `CrudService.GetAllAsync`
  and `TimeoffBalanceService.SearchTimeoffBalances` answer such a request with an empty
  page where the source throws.
- `Linq.PageWithInt32Offset` clamps a wrapped negative offset to zero in the same way;
  the database would reject it.
- `TimeoffBalanceService.CalculateUsedDays` sums the four counters and subtracts the
  sum from 40 on unbounded integers. The unchecked 32-bit `int` sum and subtraction of
  the source (TimeoffBalanceService.cs:168 and :170) can wrap; that is not modelled.
- `TimeoffBalanceService.UsedDaysOfFirstRow` states the used days on unbounded
  integers, for the same reason.
- `TimeTracker.TimeTrackerService.IncreaseUsedDays` adds the quantity on unbounded
  integers. The unchecked 32-bit `+` at TimeTrackerService.cs:25 can wrap; that is not
  modelled.
- `CrudService.DeletedRows` removes or flags one row of one table. Foreign keys and
  cascade deletes of the database are not modelled: a hard-deleted employee's balance,
  request and time-worked rows stay in their tables here.
- `CrudService.Create` stores any entity. The database's foreign-key checks are not
  modelled, so a row whose `EmployeeId`, `PositionId` or `SalaryId` names no row is
  accepted here where the insert would fail.
- `EmployeeService.Create` likewise accepts a `PositionId` or `SalaryId` that names no
  row. Each table is an independent `TimeCraftRepository`.
- The audit timestamps `CreatedOn` and `UpdatedOn` come from the wall clock and are
  not modelled.
- Salary amounts are doubles that are only copied. They are `real` here.
- Entity Framework's change tracking is not modelled. The source mutates a tracked
  entity in place and then saves it; here the row is replaced by value.
  Concurrent requests and the unsynchronised read-modify-write of balances are also
  not modelled. The model is single-threaded.
- `Include`/`ThenInclude` navigation loading, `GetAll`, `DeleteRange` and
  `UpdateRange` of the repository are not modelled. The first two only shape a query;
  the services never call the last two.
- Controllers, role checks, `UserService`, the e-mail workers, the unit of work,
  the data context, dependency wiring and the object-mapper configuration are
  outside this model.
- `Repository.TimeCraftRepository.Update` and `Repository.TimeCraftRepository.Delete`
  leave the table unchanged for a key that no row holds. In the source, `DbSet.Update`
  tracks an entity with an unset key as added, so the save inserts it, and saving an
  `Update` or `Remove` of any other missing key throws a concurrency exception because
  no row was affected. Every service passes a row it has just read, so no modelled
  caller reaches this path.
- `Repository.GetByConditionPaginated` and `Repository.Ordered` take an `int`-valued
  ordering key. The source's key is an `Expression<Func<TEntity, object>>`, which can
  order by any comparable column.
- `Linq.OrderBy` and `Linq.OrderByDescending` keep rows with equal keys in store order.
  SQL's `ORDER BY` leaves the order of ties unspecified, so the source may return tied
  rows, and hence pages, in another order.
- A hard `Delete` in the services removes the row by key. What Entity Framework does
  with a detached entity is not modelled.

## Findings

| source | as written | input that shows it | evidently intended | confidence | as-written member | corrected member |
|---|---|---|---|---|---|---|
| TimeCraft.Infrastructure/Persistence/Repository/TimeCraftRepository.cs:49 | The offset `(page - 1) * pageSize` is computed in unchecked 32-bit `int` arithmetic and wraps | page 65537, pageSize 65536 on a three-row table: the offset wraps to 0 and the first page comes back | a page that starts past the end is empty | low, not executed | `Linq.Int32OffsetRepeatsFirstPage` | `Linq.PagePastTheEndIsEmpty` |
