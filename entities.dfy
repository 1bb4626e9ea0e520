/**
 * The entities of the core (TimeCraft.Domain/Entities) as values, the time-off
 * category enum with its parser, and the errors the services throw.
 */
module Entities {
  import opened Wrappers

  /**
   * One stored row. `id` and `deleted` are the columns every entity inherits from
   * BaseEntity; `data` holds the entity's own columns. The audit timestamps are not modelled.
   */
  datatype Row<T> = Row(id: int, deleted: bool, data: T)

  /**
   * TimeoffType. Besides its four members, a C# enum variable can hold an integer that
   * names no member (the controllers bind `type` from an integer query parameter);
   * `Unnamed` stands for every such value.
   */
  datatype TimeoffType = Vacation | Sick | Personal | Other | Unnamed {
    predicate IsNamed() { !Unnamed? }
  }

  /** The enum member's name, as ToString() writes it. */
  function TypeName(t: TimeoffType): string
    requires t.IsNamed()
  {
    match t
    case Vacation => "Vacation"
    case Sick => "Sick"
    case Personal => "Personal"
    case Other => "Other"
    case Unnamed => ""
  }

  /** Enum.TryParse<TimeoffType> on a member name: None when the string names no member. */
  function ParseTimeoffType(s: string): (r: Option<TimeoffType>)
    ensures r.Some? ==> r.value.IsNamed() && TypeName(r.value) == s
    ensures r.None? ==> forall t: TimeoffType :: t.IsNamed() ==> TypeName(t) != s
  {
    if s == "Vacation" then Some(Vacation)
    else if s == "Sick" then Some(Sick)
    else if s == "Personal" then Some(Personal)
    else if s == "Other" then Some(Other)
    else None
  }

  /** Parsing a member's own name gives that member back. */
  lemma ParseTypeName(t: TimeoffType)
    requires t.IsNamed()
    ensures ParseTimeoffType(TypeName(t)) == Some(t)
  {
  }

  /** The value `default(TimeoffType)` that a failed TryParse leaves in its out-variable. */
  const DefaultTimeoffType: TimeoffType := Vacation

  /** TimeoffRequestStatusType member names, as stored in TimeoffRequest.Status. */
  const Pending: string := "Pending"
  const Approved: string := "Approved"
  const Denied: string := "Denied"

  datatype Employee = Employee(userId: string, salaryId: Option<int>, positionId: int)

  /** The four per-category counters of one employee. */
  datatype TimeoffBalance = TimeoffBalance(
    employeeId: int, vacationDays: int, sickDays: int, personalDays: int, otherTimeOffDays: int)
  {
    /** The counter a named category selects. */
    function Days(t: TimeoffType): int
      requires t.IsNamed()
    {
      if t == Vacation then vacationDays
      else if t == Sick then sickDays
      else if t == Personal then personalDays
      else otherTimeOffDays
    }

    /** The balance with `quantity` added to the counter of `t`. */
    function Added(t: TimeoffType, quantity: int): (r: TimeoffBalance)
      requires t.IsNamed()
      ensures r.employeeId == employeeId
      ensures r.Days(t) == Days(t) + quantity
      ensures forall u: TimeoffType :: u.IsNamed() && u != t ==> r.Days(u) == Days(u)
      ensures r.Total() == Total() + quantity
    {
      match t
      case Vacation => this.(vacationDays := vacationDays + quantity)
      case Sick => this.(sickDays := sickDays + quantity)
      case Personal => this.(personalDays := personalDays + quantity)
      case Other => this.(otherTimeOffDays := otherTimeOffDays + quantity)
      case Unnamed => this
    }

    /** The days left over all four categories. */
    function Total(): int {
      vacationDays + sickDays + personalDays + otherTimeOffDays
    }
  }

  /** Start and end dates are whole day numbers; their difference is TimeSpan.Days. */
  datatype TimeoffRequest = TimeoffRequest(
    employeeId: int, timeoffType: string, startDate: int, endDate: int, status: string, comment: string)

  datatype Position = Position(role: string, description: string, contractConditions: string)

  /** The two amounts are doubles in the source and are only ever copied. */
  datatype Salary = Salary(grossSalary: real, netoSalary: real, contractType: string, positionId: int)

  /** QueuedDate is a day number. */
  datatype QueuedEmail = QueuedEmail(
    recipientEmail: string, ccs: string, queuedDate: int, sendTries: int,
    subject: string, body: string, status: string)

  /** WorkDate, StartTime and EndTime are instants given as integers. */
  datatype TimeWorked = TimeWorked(
    employeeId: int, workDate: int, startTime: int, endTime: int, duration: int,
    projectId: int, projectTaskId: int, description: string)

  /** What a service throws, by cause. */
  datatype Error =
    | NotFound             // NullReferenceException: no visible row with the given id
    | NullDereference      // NullReferenceException: a missing balance row was dereferenced
    | InvalidType          // "The timeoff type isn't correct"
    | UnknownType          // "The given type balance doesn't exist!"
    | InsufficientBalance  // "You don't have enough balance!"
    | AlreadyApproved      // "The timeoff is already approved!"
    | AlreadyDenied        // "The timeoff is already denied!"

  /** The completion of a `Task` with no value: it ran to the end, or threw. */
  datatype Outcome = Pass | Fail(error: Error)
}
