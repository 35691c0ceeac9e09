/**
 * The employee side of the help desk: reporting a problem, reading one,
 * listing one's own, and withdrawing one that no technician has taken.
 *
 * Each action is stated as a function of the stored documents. The two
 * reads are pure queries and stay functions. The two actions that change
 * the store are also written as the controller writes them, step by step
 * against the session, and proved to agree with their functions.
 */
module EmployeeIssues {
  import opened Problems
  import opened Session

  /** The answers DeleteProblem gives: 204, 401 and 409. */
  datatype DeleteResult = NoContent | Unauthorized | Conflict

  /** What an action answers, and the documents it leaves stored. */
  datatype Outcome<R> = Outcome(result: R, problems: Store)

  /** The list response: the matching problems, and the filter it applied. */
  datatype ProblemCollection = ProblemCollection(problems: set<Problem>, filteringBy: seq<Guid>)

  // ---------------------------------------------------------------------
  // Submitting a problem

  /** The document a submission creates. */
  function NewProblem(id: Guid, now: int, userSub: Sub, request: SubmitIssueRequest): (p: Problem)
    ensures p.id == id && p.reportedBy == userSub && p.reportedAt == now
    ensures p.reportedProblem == request && p.SoftwareId() == request.softwareId
    ensures p.status == AwaitingTechAssignment && WellFormed(p)
  {
    Problem(id, now, userSub, request, AwaitingTechAssignment, None)
  }

  /** The documents stored after a submission under a fresh id. */
  function Submit(problems: Store, id: Guid, now: int, userSub: Sub, request: SubmitIssueRequest): (r: Store)
    requires id !in problems
    ensures r.Keys == problems.Keys + {id}
    ensures r[id].status == AwaitingTechAssignment && r[id].reportedBy == userSub
    ensures r[id].id == id && r[id].assignedTo == None
    ensures forall k :: k in problems ==> r[k] == problems[k]
    ensures KeyedById(problems) ==> KeyedById(r)
    ensures AllWellFormed(problems) ==> AllWellFormed(r)
  {
    problems[id := NewProblem(id, now, userSub, request)]
  }

  /**
   * AddEmployeeProblemAsync. The caller's sub, the clock reading and the
   * new Guid come in as arguments.
   */
  method AddEmployeeProblem(
    session: DocumentSession, request: SubmitIssueRequest, now: int, userSub: Sub, freshId: Guid)
    returns (response: Problem)
    requires session.Valid()
    requires freshId !in session.problems
    modifies session
    ensures session.Valid()
    ensures response == NewProblem(freshId, now, userSub, request)
    ensures session.problems == Submit(old(session.problems), freshId, now, userSub, request)
  {
    response := Problem(freshId, now, userSub, request, AwaitingTechAssignment, None);
    session.Store(response);
  }

  // ---------------------------------------------------------------------
  // Reading

  /**
   * GetProblemByIdAsync: the problem whose Id is the one asked for, or
   * None for 404. On a session keyed by id, looking up the key finds
   * exactly the documents the query over their Id field finds.
   */
  function GetProblemById(problems: Store, id: Guid): (r: Option<Problem>)
    ensures r.None? <==> id !in problems
    ensures r.Some? ==> id in problems && r.value == problems[id]
    ensures KeyedById(problems) ==>
      (r.Some? <==> exists k :: k in problems && problems[k].id == id)
    ensures KeyedById(problems) && r.Some? ==> r.value.id == id
  {
    if id in problems then Some(problems[id]) else None
  }

  /**
   * GetAllEmployeeProblems: the caller's own problems, further narrowed to
   * one software when the softwareId asked for is not Guid.Empty.
   */
  function GetAllEmployeeProblems(problems: Store, userSub: Sub, softwareId: Guid): (r: ProblemCollection)
    ensures forall p :: p in r.problems ==> p in problems.Values && p.reportedBy == userSub
    ensures softwareId != EmptyGuid ==>
      forall p :: p in r.problems ==> p.SoftwareId() == softwareId
    ensures forall k ::
      (k in problems && problems[k].reportedBy == userSub
       && (softwareId == EmptyGuid || problems[k].SoftwareId() == softwareId)) ==> problems[k] in r.problems
    ensures r.filteringBy == [softwareId]
  {
    var mine := set p | p in problems.Values && p.reportedBy == userSub;
    var data := if softwareId != EmptyGuid then set p | p in mine && p.SoftwareId() == softwareId else mine;
    ProblemCollection(data, [softwareId])
  }

  // ---------------------------------------------------------------------
  // Deleting

  /** The reporter may withdraw a problem while it awaits a technician. */
  predicate DeletableBy(p: Problem, userSub: Sub) {
    p.reportedBy == userSub && p.status == AwaitingTechAssignment
  }

  /**
   * DeleteProblem's answer and the documents it leaves. Ownership is
   * checked before status, so a stranger is refused whatever the status;
   * a missing problem is not an error.
   */
  function Delete(problems: Store, id: Guid, userSub: Sub): (o: Outcome<DeleteResult>)
    ensures o.result == Unauthorized <==> id in problems && problems[id].reportedBy != userSub
    ensures o.result == Conflict <==>
      id in problems && problems[id].reportedBy == userSub && problems[id].status != AwaitingTechAssignment
    ensures o.result == NoContent <==> id !in problems || DeletableBy(problems[id], userSub)
    ensures id in problems && DeletableBy(problems[id], userSub) ==>
      && o.problems.Keys == problems.Keys - {id}
      && forall k :: k in o.problems ==> o.problems[k] == problems[k]
    ensures !(id in problems && DeletableBy(problems[id], userSub)) ==> o.problems == problems
  {
    if id !in problems then Outcome(NoContent, problems)
    else if problems[id].reportedBy != userSub then Outcome(Unauthorized, problems)
    else if problems[id].status != AwaitingTechAssignment then Outcome(Conflict, problems)
    else Outcome(NoContent, problems - {id})
  }

  /** DeleteProblem, with its guards in the controller's order. */
  method DeleteProblem(session: DocumentSession, id: Guid, userSub: Sub) returns (r: DeleteResult)
    requires session.Valid()
    modifies session
    ensures session.Valid()
    ensures r == Delete(old(session.problems), id, userSub).result
    ensures session.problems == Delete(old(session.problems), id, userSub).problems
  {
    if id !in session.problems {
      return NoContent;
    }
    var problem := session.problems[id];
    if problem.reportedBy != userSub {
      return Unauthorized;
    }
    if problem.status != AwaitingTechAssignment {
      return Conflict;
    }
    session.HardDelete(problem);
    return NoContent;
  }

  // ---------------------------------------------------------------------
  // How the actions relate

  /** A submitted problem can be read back, and is listed for its reporter. */
  lemma SubmitThenRead(problems: Store, id: Guid, now: int, userSub: Sub, request: SubmitIssueRequest)
    requires id !in problems
    ensures GetProblemById(Submit(problems, id, now, userSub, request), id)
      == Some(NewProblem(id, now, userSub, request))
    ensures NewProblem(id, now, userSub, request)
      in GetAllEmployeeProblems(Submit(problems, id, now, userSub, request), userSub, EmptyGuid).problems
    ensures NewProblem(id, now, userSub, request)
      in GetAllEmployeeProblems(Submit(problems, id, now, userSub, request), userSub, request.softwareId).problems
  {
    var after := Submit(problems, id, now, userSub, request);
    assert after[id] == NewProblem(id, now, userSub, request);
  }

  /** After a delete that succeeded the problem can no longer be read. */
  lemma DeleteThenRead(problems: Store, id: Guid, userSub: Sub)
    requires id in problems && DeletableBy(problems[id], userSub)
    ensures GetProblemById(Delete(problems, id, userSub).problems, id) == None
    ensures forall k :: k != id ==>
      GetProblemById(Delete(problems, id, userSub).problems, k) == GetProblemById(problems, k)
  {
  }

  /** A filtered list is the unfiltered one narrowed to that software. */
  lemma FilterNarrowsList(problems: Store, userSub: Sub, softwareId: Guid)
    requires softwareId != EmptyGuid
    ensures GetAllEmployeeProblems(problems, userSub, softwareId).problems
      == set p | p in GetAllEmployeeProblems(problems, userSub, EmptyGuid).problems
                 && p.SoftwareId() == softwareId
  {
  }

  /** Deleting keeps the session keyed by id and every problem well formed. */
  lemma DeleteKeepsInvariants(problems: Store, id: Guid, userSub: Sub)
    requires KeyedById(problems) && AllWellFormed(problems)
    ensures KeyedById(Delete(problems, id, userSub).problems)
    ensures AllWellFormed(Delete(problems, id, userSub).problems)
  {
  }
}
