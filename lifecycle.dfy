/**
 * Sequences of requests against one help desk, each handled whole before
 * the next begins, and what holds of every such sequence: the stored
 * problems stay well formed, a problem that has left AwaitingTechAssignment
 * never changes again, a problem is claimed at most once, and the hub
 * gets one message per successful claim, in the order of the claims,
 * naming the problem and the technician, and no other message.
 */
module Lifecycle {
  import opened Problems
  import EmployeeIssues
  import TechIssues

  /** The state-changing requests; reads do not change the state. */
  datatype Request =
    | SubmitRequest(id: Guid, now: int, sub: Sub, request: SubmitIssueRequest)
    | DeleteRequest(id: Guid, sub: Sub)
    | AssignRequest(id: Guid, sub: Sub)

  datatype Response =
    | Created(problem: Problem)
    | DeleteResponse(deleted: EmployeeIssues.DeleteResult)
    | AssignResponse(claim: TechIssues.AssignResult)

  /** The stored problems and the hub's log of sent messages. */
  datatype State = State(problems: Store, sent: seq<Notification>)

  /** A new Guid is never one that is currently stored. */
  predicate Admissible(s: State, req: Request) {
    req.SubmitRequest? ==> req.id !in s.problems
  }

  function Reply(s: State, req: Request): (r: Response)
    requires Admissible(s, req)
  {
    match req
    case SubmitRequest(id, now, sub, request) => Created(EmployeeIssues.NewProblem(id, now, sub, request))
    case DeleteRequest(id, sub) => DeleteResponse(EmployeeIssues.Delete(s.problems, id, sub).result)
    case AssignRequest(id, sub) => AssignResponse(TechIssues.Assign(s.problems, id, sub).result)
  }

  function Next(s: State, req: Request): (t: State)
    requires Admissible(s, req)
  {
    match req
    case SubmitRequest(id, now, sub, request) =>
      State(EmployeeIssues.Submit(s.problems, id, now, sub, request), s.sent)
    case DeleteRequest(id, sub) =>
      State(EmployeeIssues.Delete(s.problems, id, sub).problems, s.sent)
    case AssignRequest(id, sub) =>
      var o := TechIssues.Assign(s.problems, id, sub);
      State(o.problems, s.sent + o.published)
  }

  /** Every request of the sequence is admissible when its turn comes. */
  predicate RunAdmissible(s: State, reqs: seq<Request>)
    decreases |reqs|
  {
    reqs == [] || (Admissible(s, reqs[0]) && RunAdmissible(Next(s, reqs[0]), reqs[1..]))
  }

  /** The state after the whole sequence; the hub's log only grows. */
  function Run(s: State, reqs: seq<Request>): (t: State)
    requires RunAdmissible(s, reqs)
    ensures |s.sent| <= |t.sent| && t.sent[..|s.sent|] == s.sent
    decreases |reqs|
  {
    if reqs == [] then s else Run(Next(s, reqs[0]), reqs[1..])
  }

  /** The responses, one per request. */
  function Replies(s: State, reqs: seq<Request>): (rs: seq<Response>)
    requires RunAdmissible(s, reqs)
    ensures |rs| == |reqs|
    decreases |reqs|
  {
    if reqs == [] then [] else [Reply(s, reqs[0])] + Replies(Next(s, reqs[0]), reqs[1..])
  }

  /** A successful claim of problem `id`. */
  predicate Claims(r: Response, id: Guid) {
    r.AssignResponse? && r.claim.Ok? && r.claim.problemId == id
  }

  /** How many responses are successful claims. */
  function ClaimCount(rs: seq<Response>): (n: nat) {
    if rs == [] then 0 else (if rs[0].AssignResponse? && rs[0].claim.Ok? then 1 else 0) + ClaimCount(rs[1..])
  }

  predicate Invariant(problems: Store) {
    KeyedById(problems) && AllWellFormed(problems)
  }

  /** A problem that has left AwaitingTechAssignment is still there, unchanged. */
  ghost predicate Frozen(before: Store, after: Store) {
    forall id :: id in before && before[id].status != AwaitingTechAssignment ==>
      id in after && after[id] == before[id]
  }

  // ---------------------------------------------------------------------
  // One request

  lemma StepKeepsInvariant(s: State, req: Request)
    requires Admissible(s, req) && Invariant(s.problems)
    ensures Invariant(Next(s, req).problems)
  {
    match req
    case SubmitRequest(id, now, sub, request) =>
    case DeleteRequest(id, sub) => EmployeeIssues.DeleteKeepsInvariants(s.problems, id, sub);
    case AssignRequest(id, sub) => TechIssues.AssignKeepsInvariants(s.problems, id, sub);
  }

  /** Every request keeps the store keyed by id, whatever the problems hold. */
  lemma StepKeepsKeyed(s: State, req: Request)
    requires Admissible(s, req) && KeyedById(s.problems)
    ensures KeyedById(Next(s, req).problems)
  {
  }

  /**
   * One request changes only problems awaiting a technician, never brings
   * one back to AwaitingTechAssignment, and keeps the submission fields of
   * every problem it leaves stored.
   */
  lemma StepEvolves(s: State, req: Request)
    requires Admissible(s, req)
    ensures Frozen(s.problems, Next(s, req).problems)
    ensures forall id :: id in s.problems && id in Next(s, req).problems ==>
      && SameSubmission(s.problems[id], Next(s, req).problems[id])
      && (Next(s, req).problems[id].status == AwaitingTechAssignment ==>
            s.problems[id].status == AwaitingTechAssignment)
  {
  }

  /** A successful claim leaves the problem assigned to that technician. */
  lemma StepClaims(s: State, req: Request, id: Guid)
    requires Admissible(s, req) && Claims(Reply(s, req), id)
    ensures req.AssignRequest? && req.id == id
    ensures id in Next(s, req).problems
    ensures Next(s, req).problems[id].status == AssignedToTech
    ensures Next(s, req).problems[id].assignedTo == Some(req.sub)
  {
  }

  // ---------------------------------------------------------------------
  // Whole sequences

  lemma {:induction false} RunKeepsInvariant(s: State, reqs: seq<Request>)
    requires RunAdmissible(s, reqs) && Invariant(s.problems)
    ensures Invariant(Run(s, reqs).problems)
    decreases |reqs|
  {
    if reqs != [] {
      StepKeepsInvariant(s, reqs[0]);
      RunKeepsInvariant(Next(s, reqs[0]), reqs[1..]);
    }
  }

  /** A problem that has left AwaitingTechAssignment never changes again. */
  lemma {:induction false} RunFreezesDecided(s: State, reqs: seq<Request>)
    requires RunAdmissible(s, reqs)
    ensures Frozen(s.problems, Run(s, reqs).problems)
    decreases |reqs|
  {
    if reqs != [] {
      StepEvolves(s, reqs[0]);
      RunFreezesDecided(Next(s, reqs[0]), reqs[1..]);
    }
  }

  /** Once claimed, every later claim of the problem is refused as already assigned. */
  lemma {:induction false} ClaimIsFinal(s: State, reqs: seq<Request>, id: Guid)
    requires RunAdmissible(s, reqs)
    requires id in s.problems && s.problems[id].status == AssignedToTech
    ensures forall j :: 0 <= j < |reqs| && reqs[j].AssignRequest? && reqs[j].id == id ==>
      Replies(s, reqs)[j] == AssignResponse(TechIssues.BadRequest(TechIssues.AlreadyAssigned))
    decreases |reqs|
  {
    if reqs != [] {
      var t := Next(s, reqs[0]);
      StepEvolves(s, reqs[0]);
      ClaimIsFinal(t, reqs[1..], id);
      forall j | 0 < j < |reqs| && reqs[j].AssignRequest? && reqs[j].id == id
        ensures Replies(s, reqs)[j] == AssignResponse(TechIssues.BadRequest(TechIssues.AlreadyAssigned))
      {
        assert reqs[1..][j - 1] == reqs[j];
      }
    }
  }

  /** No problem is claimed twice: after a successful claim, every later one is refused. */
  lemma {:induction false} AtMostOneClaim(s: State, reqs: seq<Request>, id: Guid)
    requires RunAdmissible(s, reqs)
    ensures forall i, j ::
      (0 <= i < j < |reqs| && Claims(Replies(s, reqs)[i], id) && reqs[j].AssignRequest? && reqs[j].id == id) ==>
      Replies(s, reqs)[j] == AssignResponse(TechIssues.BadRequest(TechIssues.AlreadyAssigned))
    decreases |reqs|
  {
    if reqs != [] {
      var t := Next(s, reqs[0]);
      var rs := Replies(s, reqs);
      AtMostOneClaim(t, reqs[1..], id);
      if Claims(rs[0], id) {
        StepClaims(s, reqs[0], id);
        ClaimIsFinal(t, reqs[1..], id);
      }
      forall i, j | 0 <= i < j < |reqs| && Claims(rs[i], id) && reqs[j].AssignRequest? && reqs[j].id == id
        ensures rs[j] == AssignResponse(TechIssues.BadRequest(TechIssues.AlreadyAssigned))
      {
        assert reqs[1..][j - 1] == reqs[j];
        if i > 0 {
          assert rs[i] == Replies(t, reqs[1..])[i - 1];
        }
      }
    }
  }

  /**
   * Message `n` reports a successful claim made by one of the requests:
   * it names the claimed problem and the technician who claimed it.
   */
  ghost predicate ReportsClaim(n: Notification, s: State, reqs: seq<Request>)
    requires RunAdmissible(s, reqs)
  {
    exists i :: 0 <= i < |reqs| && reqs[i].AssignRequest? && Claims(Replies(s, reqs)[i], reqs[i].id)
      && n.issue.id == reqs[i].id && n.issue.assignedTo == Some(reqs[i].sub)
  }

  /**
   * The hub's log grows by one message per successful claim and by nothing
   * else. Every new message goes to the employee group, carries a problem
   * assigned to a technician, and reports one of the successful claims:
   * the problem claimed and the technician who claimed it.
   */
  lemma {:induction false} RunPublishesClaims(s: State, reqs: seq<Request>)
    requires RunAdmissible(s, reqs) && KeyedById(s.problems)
    ensures |Run(s, reqs).sent| == |s.sent| + ClaimCount(Replies(s, reqs))
    ensures forall k :: |s.sent| <= k < |Run(s, reqs).sent| ==>
      && Run(s, reqs).sent[k].group == EmployeeGroup
      && Run(s, reqs).sent[k].issue.status == AssignedToTech
      && ReportsClaim(Run(s, reqs).sent[k], s, reqs)
    decreases |reqs|
  {
    if reqs != [] {
      var t := Next(s, reqs[0]);
      StepKeepsKeyed(s, reqs[0]);
      RunPublishesClaims(t, reqs[1..]);
      var rs := Replies(s, reqs);
      assert rs[1..] == Replies(t, reqs[1..]);
      assert |t.sent| == |s.sent| + (if rs[0].AssignResponse? && rs[0].claim.Ok? then 1 else 0);
      var after := Run(s, reqs);
      assert after == Run(t, reqs[1..]);
      forall k | |s.sent| <= k < |after.sent|
        ensures after.sent[k].group == EmployeeGroup && after.sent[k].issue.status == AssignedToTech
        ensures ReportsClaim(after.sent[k], s, reqs)
      {
        if k < |t.sent| {
          // The message published by the first request, a successful claim.
          assert after.sent[k] == t.sent[k];
          var req := reqs[0];
          assert req.AssignRequest? && t.sent[k] == IssueUpdated(EmployeeGroup, t.problems[req.id]);
          assert Claims(rs[0], req.id);
          assert t.problems[req.id].id == s.problems[req.id].id == req.id;
        } else {
          // A message published later: its claim is one of the remaining requests.
          var i :| 0 <= i < |reqs[1..]| && reqs[1..][i].AssignRequest?
            && Claims(Replies(t, reqs[1..])[i], reqs[1..][i].id)
            && after.sent[k].issue.id == reqs[1..][i].id
            && after.sent[k].issue.assignedTo == Some(reqs[1..][i].sub);
          assert reqs[1..][i] == reqs[i + 1] && rs[i + 1] == Replies(t, reqs[1..])[i];
        }
      }
    }
  }

  /** Counting the claims among the first `i` responses, one response at a time. */
  lemma ClaimCountStep(rs: seq<Response>, i: nat)
    requires 0 < i <= |rs|
    ensures ClaimCount(rs[..i]) ==
      (if rs[0].AssignResponse? && rs[0].claim.Ok? then 1 else 0) + ClaimCount(rs[1..][..i - 1])
  {
    assert rs[..i][0] == rs[0];
    assert rs[..i][1..] == rs[1..][..i - 1];
  }

  /**
   * The claim made by request `i` is reported by the new message that
   * follows one message for each successful claim before it, naming the
   * problem claimed and the technician who claimed it.
   */
  lemma {:induction false} ClaimPublished(s: State, reqs: seq<Request>, i: nat)
    requires RunAdmissible(s, reqs) && KeyedById(s.problems)
    requires i < |reqs| && Claims(Replies(s, reqs)[i], reqs[i].id)
    ensures |s.sent| + ClaimCount(Replies(s, reqs)[..i]) < |Run(s, reqs).sent|
    ensures Run(s, reqs).sent[|s.sent| + ClaimCount(Replies(s, reqs)[..i])]
      == IssueUpdated(EmployeeGroup, Run(s, reqs).sent[|s.sent| + ClaimCount(Replies(s, reqs)[..i])].issue)
    ensures Run(s, reqs).sent[|s.sent| + ClaimCount(Replies(s, reqs)[..i])].issue.id == reqs[i].id
    ensures Run(s, reqs).sent[|s.sent| + ClaimCount(Replies(s, reqs)[..i])].issue.assignedTo == Some(reqs[i].sub)
    decreases |reqs|
  {
    var t := Next(s, reqs[0]);
    var rs := Replies(s, reqs);
    assert Run(s, reqs) == Run(t, reqs[1..]);
    if i == 0 {
      // The first request's own message, the last one of t.sent.
      assert rs[..0] == [];
      var req := reqs[0];
      assert req.AssignRequest? && t.sent == s.sent + [IssueUpdated(EmployeeGroup, t.problems[req.id])];
      assert t.problems[req.id].id == s.problems[req.id].id == req.id;
    } else {
      // A later claim: its position shifts by the first request's message.
      StepKeepsKeyed(s, reqs[0]);
      assert rs[1..] == Replies(t, reqs[1..]);
      assert reqs[1..][i - 1] == reqs[i];
      ClaimPublished(t, reqs[1..], i - 1);
      ClaimCountStep(rs, i);
    }
  }

  /** Every successful claim of the sequence has its message, in the order of the claims. */
  lemma RunPublishesEveryClaim(s: State, reqs: seq<Request>)
    requires RunAdmissible(s, reqs) && KeyedById(s.problems)
    ensures forall i :: 0 <= i < |reqs| && Claims(Replies(s, reqs)[i], reqs[i].id) ==>
      && |s.sent| + ClaimCount(Replies(s, reqs)[..i]) < |Run(s, reqs).sent|
      && Run(s, reqs).sent[|s.sent| + ClaimCount(Replies(s, reqs)[..i])].group == EmployeeGroup
      && Run(s, reqs).sent[|s.sent| + ClaimCount(Replies(s, reqs)[..i])].issue.id == reqs[i].id
      && Run(s, reqs).sent[|s.sent| + ClaimCount(Replies(s, reqs)[..i])].issue.assignedTo == Some(reqs[i].sub)
  {
    forall i | 0 <= i < |reqs| && Claims(Replies(s, reqs)[i], reqs[i].id)
      ensures |s.sent| + ClaimCount(Replies(s, reqs)[..i]) < |Run(s, reqs).sent|
      ensures Run(s, reqs).sent[|s.sent| + ClaimCount(Replies(s, reqs)[..i])].group == EmployeeGroup
      ensures Run(s, reqs).sent[|s.sent| + ClaimCount(Replies(s, reqs)[..i])].issue.id == reqs[i].id
      ensures Run(s, reqs).sent[|s.sent| + ClaimCount(Replies(s, reqs)[..i])].issue.assignedTo == Some(reqs[i].sub)
    {
      ClaimPublished(s, reqs, i);
    }
  }
}
