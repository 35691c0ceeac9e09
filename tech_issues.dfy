/**
 * The technician side of the help desk: claiming a problem that awaits a
 * technician, which records the claim and tells the employees' clients.
 */
module TechIssues {
  import opened Problems
  import opened Session

  /** Why a claim is refused with 400. */
  datatype BadRequestReason =
    | AlreadyAssigned                 // "Problem is already assigned to another tech."
    | CannotBeAssigned(current: Status) // "Problem cannot be assigned. Current status: ..."

  /** The answers AssignProblemToTechAsync gives: 200 with its body, 404, 400. */
  datatype AssignResult =
    | Ok(problemId: Guid, assignedTo: Sub, status: string)
    | NotFound
    | BadRequest(reason: BadRequestReason)

  /** What a claim answers, the documents it leaves, and what it broadcasts. */
  datatype AssignOutcome = AssignOutcome(result: AssignResult, problems: Store, published: seq<Notification>)

  /** The problem as it stands once the technician has claimed it. */
  function Claimed(p: Problem, techSub: Sub): (q: Problem)
    ensures SameSubmission(p, q)
    ensures q.status == AssignedToTech && q.assignedTo == Some(techSub) && WellFormed(q)
  {
    p.(status := AssignedToTech, assignedTo := Some(techSub))
  }

  /**
   * AssignProblemToTechAsync's answer, documents and broadcast. A claim
   * succeeds exactly on a problem awaiting a technician; every refusal
   * leaves the documents as they were and broadcasts nothing.
   */
  function Assign(problems: Store, id: Guid, techSub: Sub): (o: AssignOutcome)
    ensures o.result == NotFound <==> id !in problems
    ensures o.result == BadRequest(AlreadyAssigned) <==> id in problems && problems[id].status == AssignedToTech
    ensures o.result.BadRequest? && o.result.reason.CannotBeAssigned? <==>
      id in problems && problems[id].status != AssignedToTech && problems[id].status != AwaitingTechAssignment
    ensures o.result.BadRequest? && o.result.reason.CannotBeAssigned? ==>
      o.result.reason.current == problems[id].status
    ensures o.result.Ok? <==> id in problems && problems[id].status == AwaitingTechAssignment
    ensures !o.result.Ok? ==> o.problems == problems && o.published == []
    ensures o.result.Ok? ==>
      && o.result == Ok(id, techSub, "AssignedToTech")
      && o.problems.Keys == problems.Keys
      && SameSubmission(o.problems[id], problems[id])
      && o.problems[id].status == AssignedToTech
      && o.problems[id].assignedTo == Some(techSub)
      && (forall k :: k in problems && k != id ==> o.problems[k] == problems[k])
      && o.published == [IssueUpdated(EmployeeGroup, o.problems[id])]
  {
    if id !in problems then AssignOutcome(NotFound, problems, [])
    else if problems[id].status == AssignedToTech then AssignOutcome(BadRequest(AlreadyAssigned), problems, [])
    else if problems[id].status != AwaitingTechAssignment then
      AssignOutcome(BadRequest(CannotBeAssigned(problems[id].status)), problems, [])
    else
      var updated := Claimed(problems[id], techSub);
      AssignOutcome(Ok(id, techSub, "AssignedToTech"), problems[id := updated], [IssueUpdated(EmployeeGroup, updated)])
  }

  /**
   * AssignProblemToTechAsync, with its guards in the controller's order:
   * the entity is changed, written back, and only then broadcast to the
   * employee group. The technician's sub comes in as an argument.
   */
  method AssignProblemToTech(session: DocumentSession, hub: HelpDeskHub, problemId: Guid, techSub: Sub)
    returns (r: AssignResult)
    requires session.Valid()
    modifies session, hub
    ensures session.Valid()
    ensures r == Assign(old(session.problems), problemId, techSub).result
    ensures session.problems == Assign(old(session.problems), problemId, techSub).problems
    ensures hub.sent == old(hub.sent) + Assign(old(session.problems), problemId, techSub).published
  {
    if problemId !in session.problems {
      return NotFound;
    }
    var entity := session.problems[problemId];
    if entity.status == AssignedToTech {
      return BadRequest(AlreadyAssigned);
    }
    if entity.status != AwaitingTechAssignment {
      return BadRequest(CannotBeAssigned(entity.status));
    }
    entity := entity.(status := AssignedToTech, assignedTo := Some(techSub));
    session.Update(entity);
    hub.IssueUpdated(EmployeeGroup, entity);
    r := Ok(entity.id, techSub, "AssignedToTech");
  }

  // ---------------------------------------------------------------------
  // How claims relate

  /** A second claim on the same problem is refused and changes nothing. */
  lemma SecondClaimRefused(problems: Store, id: Guid, first: Sub, second: Sub)
    requires Assign(problems, id, first).result.Ok?
    ensures Assign(Assign(problems, id, first).problems, id, second)
      == AssignOutcome(BadRequest(AlreadyAssigned), Assign(problems, id, first).problems, [])
  {
  }

  /** The broadcast carries the problem exactly as it is now stored. */
  lemma BroadcastReflectsStore(problems: Store, id: Guid, techSub: Sub)
    requires Assign(problems, id, techSub).result.Ok?
    ensures |Assign(problems, id, techSub).published| == 1
    ensures Assign(problems, id, techSub).published[0].issue == Assign(problems, id, techSub).problems[id]
  {
  }

  /** Claiming keeps the session keyed by id and every problem well formed. */
  lemma AssignKeepsInvariants(problems: Store, id: Guid, techSub: Sub)
    requires KeyedById(problems) && AllWellFormed(problems)
    ensures KeyedById(Assign(problems, id, techSub).problems)
    ensures AllWellFormed(Assign(problems, id, techSub).problems)
  {
  }
}
