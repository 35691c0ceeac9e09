/**
 * The help desk's one entity: a problem an employee reported, with the
 * status that moves it through its lifecycle, and the notification the
 * technician side broadcasts when it changes.
 */
module Problems {

  datatype Option<+T> = None | Some(value: T)

  /** A Guid. The value 0 stands for Guid.Empty. */
  type Guid = nat

  const EmptyGuid: Guid := 0

  /** The subject claim ("sub") that identifies a user. */
  type Sub = string

  /**
   * SubmittedIssueStatus: the two statuses the controllers name, and every
   * other value of the enumeration, which the controllers treat alike.
   */
  datatype Status = AwaitingTechAssignment | AssignedToTech | OtherStatus(name: string)

  /** What the employee sends when reporting a problem. */
  datatype SubmitIssueRequest = SubmitIssueRequest(softwareId: Guid, description: string)

  /** EmployeeProblemEntity; its response form carries the same fields. */
  datatype Problem = Problem(
    id: Guid,
    reportedAt: int,
    reportedBy: Sub,
    reportedProblem: SubmitIssueRequest,
    status: Status,
    assignedTo: Option<Sub>)
  {
    function SoftwareId(): Guid { reportedProblem.softwareId }
  }

  /** The stored problem documents, by id. */
  type Store = map<Guid, Problem>

  /** Every document is stored under its own id. */
  predicate KeyedById(store: Store) {
    forall id :: id in store ==> store[id].id == id
  }

  /** A problem names a technician exactly when it is assigned to one. */
  predicate WellFormed(p: Problem) {
    p.assignedTo.Some? <==> p.status == AssignedToTech
  }

  predicate AllWellFormed(store: Store) {
    forall id :: id in store ==> WellFormed(store[id])
  }

  /** The fields fixed at submission, which no later operation changes. */
  predicate SameSubmission(p: Problem, q: Problem) {
    && p.id == q.id
    && p.reportedAt == q.reportedAt
    && p.reportedBy == q.reportedBy
    && p.reportedProblem == q.reportedProblem
  }

  /** The hub group that employees' clients listen on. */
  const EmployeeGroup: string := "employee"

  /** One IssueUpdated message sent to a hub group. */
  datatype Notification = IssueUpdated(group: string, issue: Problem)
}
