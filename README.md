# Help desk issue lifecycle, in Dafny

This project models the core of a help desk API. Employees report problems
with a piece of software. Technicians claim those problems. Each problem
(an `EmployeeProblemEntity`) carries an id, the reporter's sub, the
reported request (its software id and description), the time it was
reported, a status and, once claimed, the claiming technician's sub.

Two controllers make up the core:

- `EmployeeIssueController` lets an employee submit a problem, read one
  by id, list their own (optionally for one software only) and delete one.
  A delete of a missing problem is a silent no-op. A delete by anyone but
  the reporter is refused with 401. A delete of a problem that no longer
  awaits a technician is refused with 409.
- `TechIssueController` lets a technician claim a problem. The answer is
  404 for a missing problem. It is 400 "already assigned" for a claimed
  one and 400 "cannot be assigned" for any other status but
  `AwaitingTechAssignment`. Otherwise the problem becomes `AssignedToTech`
  under the technician's sub, is written back, and one `IssueUpdated`
  message goes to the `"employee"` hub group.

Layout:

- `problems.dfy` (module `Problems`): the entity, its status (the two named
  values and a catch-all `OtherStatus` for the rest of the enumeration),
  the hub message, and the invariants. `KeyedById` says every document is
  stored under its own id. `WellFormed` says a technician is named exactly
  when the status is `AssignedToTech`.
- `session.dfy` (module `Session`): the document session as a class over a
  `map` of documents (`Store`, `Update`, `HardDelete`), and the hub as a
  class holding an append-only log of sent messages.
- `employee_issues.dfy` and `tech_issues.dfy`: each controller action is
  specified as a function of the stored documents. The two reads (get by
  id, list) are pure queries and stay functions. Each action that changes
  the store (submit, delete, assign) is also written as the controller
  writes it, as a method with the same guards in the same order, acting on
  the session and the hub it is handed. That method is proved to agree
  with its function.
- `lifecycle.dfy` (module `Lifecycle`): finite sequences of requests, each
  handled whole before the next. Properties proved by induction over every
  such sequence: the invariants hold throughout; a problem that has left
  `AwaitingTechAssignment` never changes again; no problem is claimed
  twice; the hub gets as many messages as there are successful claims and
  no other message, and the claim of each successful request is reported
  by its own message, in the order of the claims, naming the claimed
  problem and the technician who claimed it.

The caller's sub, the clock reading and the new Guid are arguments. A Guid
is a natural number; `0` is `Guid.Empty`. A submission's Guid must not be
one already stored.

The model follows the code. It has no version stamp, no conditional write
and no cancel action, because the controllers have none. The code only
establishes "a technician is named exactly when assigned" for problems it
writes itself. So the model proves that every action preserves that
invariant; it does not assume it of documents persisted by other means.

## Model

| member | source | states |
|---|---|---|
| `EmployeeIssues.NewProblem` | src/HelpDesk/HelpDeskSolution/HelpDesk.Api/Employee/Issues/EmployeeIssueController.cs:29-36 | a new problem has the given id, reporter, time and request, status `AwaitingTechAssignment`, and no technician |
| `EmployeeIssues.Submit` | src/HelpDesk/HelpDeskSolution/HelpDesk.Api/Employee/Issues/EmployeeIssueController.cs:29-39 | submission adds exactly the fresh id, stored awaiting a technician with the caller as reporter; every earlier problem is unchanged; both invariants are kept |
| `EmployeeIssues.AddEmployeeProblem` | src/HelpDesk/HelpDeskSolution/HelpDesk.Api/Employee/Issues/EmployeeIssueController.cs:14-44 | the action stores the new problem through the session, returns it, and leaves the store `Submit` describes |
| `EmployeeIssues.GetProblemById` | src/HelpDesk/HelpDeskSolution/HelpDesk.Api/Employee/Issues/EmployeeIssueController.cs:46-61 | the answer is NotFound exactly when the id is not stored, and otherwise the stored problem; on a keyed store this is the problem whose Id field matches |
| `EmployeeIssues.GetAllEmployeeProblems` | src/HelpDesk/HelpDeskSolution/HelpDesk.Api/Employee/Issues/EmployeeIssueController.cs:64-83 | the list holds only stored problems the caller reported, only that software's when a non-empty softwareId is given, and every stored problem meeting both conditions; it records the filter value |
| `EmployeeIssues.Delete` | src/HelpDesk/HelpDeskSolution/HelpDesk.Api/Employee/Issues/EmployeeIssueController.cs:96-110 | 401 exactly for a stored problem of another reporter, whatever its status; 409 exactly for the reporter's problem not awaiting a technician; 204 otherwise; only a delete allowed to the reporter changes the store, and it removes exactly that id |
| `EmployeeIssues.DeleteProblem` | src/HelpDesk/HelpDeskSolution/HelpDesk.Api/Employee/Issues/EmployeeIssueController.cs:85-111 | the action, with its guards in order, answers and leaves the store as `Delete` says |
| `EmployeeIssues.SubmitThenRead` | src/HelpDesk/HelpDeskSolution/HelpDesk.Api/Employee/Issues/EmployeeIssueController.cs:37-79 | a submitted problem is returned by a read of its id and appears in its reporter's list, unfiltered and filtered by its software |
| `EmployeeIssues.DeleteThenRead` | src/HelpDesk/HelpDeskSolution/HelpDesk.Api/Employee/Issues/EmployeeIssueController.cs:108-109 | after a successful delete the id reads as NotFound, and every other id reads as before |
| `EmployeeIssues.FilterNarrowsList` | src/HelpDesk/HelpDeskSolution/HelpDesk.Api/Employee/Issues/EmployeeIssueController.cs:72-76 | the list filtered by a software is the unfiltered list narrowed to that software |
| `EmployeeIssues.DeleteKeepsInvariants` | src/HelpDesk/HelpDeskSolution/HelpDesk.Api/Employee/Issues/EmployeeIssueController.cs:104-108 | delete keeps the store keyed by id and every problem well formed |
| `TechIssues.Claimed` | src/HelpDesk/HelpDeskSolution/HelpDesk.Api/Tech/Issues/TechIssueController.cs:39-40 | a claimed problem keeps its submission fields and is `AssignedToTech` to the technician |
| `TechIssues.Assign` | src/HelpDesk/HelpDeskSolution/HelpDesk.Api/Tech/Issues/TechIssueController.cs:18-53 | 404 exactly for a missing id; "already assigned" exactly for an `AssignedToTech` problem; "cannot be assigned" exactly for any other status but `AwaitingTechAssignment`, reporting the stored status; a refusal changes nothing and broadcasts nothing; success answers the id, the technician and "AssignedToTech", changes only the status and technician of that problem, and broadcasts one message to "employee" carrying the problem as stored |
| `TechIssues.AssignProblemToTech` | src/HelpDesk/HelpDeskSolution/HelpDesk.Api/Tech/Issues/TechIssueController.cs:10-54 | the action's answer, the session it leaves and the messages it appends to the hub log are exactly those `Assign` gives for the old store, so by `Assign`'s contract a success appends one message carrying the problem as stored |
| `TechIssues.SecondClaimRefused` | src/HelpDesk/HelpDeskSolution/HelpDesk.Api/Tech/Issues/TechIssueController.cs:27-40 | a claim that follows a successful claim of the same problem is refused as already assigned and changes nothing |
| `TechIssues.BroadcastReflectsStore` | src/HelpDesk/HelpDeskSolution/HelpDesk.Api/Tech/Issues/TechIssueController.cs:42-46 | a successful claim broadcasts exactly one message, carrying the problem as it is now stored |
| `TechIssues.AssignKeepsInvariants` | src/HelpDesk/HelpDeskSolution/HelpDesk.Api/Tech/Issues/TechIssueController.cs:33-40 | a claim keeps the store keyed by id and every problem well formed |
| `Session.DocumentSession.Store` | src/HelpDesk/HelpDeskSolution/HelpDesk.Api/Employee/Issues/EmployeeIssueController.cs:38-39 | storing writes the document under its id and keeps the session keyed |
| `Session.DocumentSession.Update` | src/HelpDesk/HelpDeskSolution/HelpDesk.Api/Tech/Issues/TechIssueController.cs:42-43 | updating rewrites a stored document and keeps the set of ids |
| `Session.DocumentSession.HardDelete` | src/HelpDesk/HelpDeskSolution/HelpDesk.Api/Employee/Issues/EmployeeIssueController.cs:108-109 | hard delete removes the document's id and nothing else |
| `Session.HelpDeskHub.IssueUpdated` | src/HelpDesk/HelpDeskSolution/HelpDesk.Api/Tech/Issues/TechIssueController.cs:46 | sending appends exactly one message, to the given group, to the hub log |
| `Lifecycle.Run` | src/HelpDesk/HelpDeskSolution/HelpDesk.Api/Tech/Issues/TechIssueController.cs:46 | over any sequence of requests the hub log only grows: the old log is a prefix of the new |
| `Lifecycle.StepKeepsInvariant` | src/HelpDesk/HelpDeskSolution/HelpDesk.Api/Tech/Issues/TechIssueController.cs:39-40 | every request keeps the store keyed by id and every problem well formed |
| `Lifecycle.StepKeepsKeyed` | src/HelpDesk/HelpDeskSolution/HelpDesk.Api/Tech/Issues/TechIssueController.cs:42 | every request keeps the store keyed by id, without assuming the stored problems well formed |
| `Lifecycle.StepEvolves` | src/HelpDesk/HelpDeskSolution/HelpDesk.Api/Tech/Issues/TechIssueController.cs:27-40 | a request changes or removes only problems awaiting a technician, never returns a problem to `AwaitingTechAssignment`, and keeps the submission fields of every problem it leaves |
| `Lifecycle.StepClaims` | src/HelpDesk/HelpDeskSolution/HelpDesk.Api/Tech/Issues/TechIssueController.cs:38-40 | a successful claim comes from an assign request for that id and leaves the problem assigned to the requesting technician |
| `Lifecycle.RunKeepsInvariant` | src/HelpDesk/HelpDeskSolution/HelpDesk.Api/Employee/Issues/EmployeeIssueController.cs:35-38 | after any sequence of requests the store is still keyed by id and every problem well formed |
| `Lifecycle.RunFreezesDecided` | src/HelpDesk/HelpDeskSolution/HelpDesk.Api/Employee/Issues/EmployeeIssueController.cs:104-107 | a problem that has left `AwaitingTechAssignment` is still stored, unchanged, after any sequence of requests |
| `Lifecycle.ClaimIsFinal` | src/HelpDesk/HelpDeskSolution/HelpDesk.Api/Tech/Issues/TechIssueController.cs:27-30 | once a problem is assigned, every later claim of it in any sequence is refused as already assigned |
| `Lifecycle.AtMostOneClaim` | src/HelpDesk/HelpDeskSolution/HelpDesk.Api/Tech/Issues/TechIssueController.cs:27-36 | in any sequence of requests, after a successful claim of a problem every later claim of it is refused: a problem is claimed at most once |
| `Lifecycle.RunPublishesClaims` | src/HelpDesk/HelpDeskSolution/HelpDesk.Api/Tech/Issues/TechIssueController.cs:42-53 | over any sequence from a keyed store, the hub log grows by exactly as many messages as there are successful claims; each new message goes to "employee", carries an assigned problem, and reports a successful claim of the sequence: that problem's id and the claiming technician; refusals, submissions and deletes send nothing |
| `Lifecycle.ClaimPublished` | src/HelpDesk/HelpDeskSolution/HelpDesk.Api/Tech/Issues/TechIssueController.cs:42-46 | from a keyed store, the successful claim made by the i-th request is reported by the new message at the position after one message for each earlier successful claim: sent to "employee", naming that problem's id and the claiming technician |
| `Lifecycle.RunPublishesEveryClaim` | src/HelpDesk/HelpDeskSolution/HelpDesk.Api/Tech/Issues/TechIssueController.cs:42-46 | every successful claim of a sequence from a keyed store has its own message, in the order of the claims; with `Lifecycle.RunPublishesClaims` the new messages and the successful claims correspond one to one |

## Left out

- The document database. The session is a map of documents. `SaveChangesAsync` commits and its failures are not modelled.
- The SignalR transport. Only the message appended for a hub group is modelled, not its delivery.
- Identity resolution, the clock and `Guid.NewGuid()`. Their values are arguments. A new Guid is required not to be stored already.
- The metrics counter `ProblemCreated`. It is an external side effect only.
- HTTP routing and result construction. That includes the `Created` location URL and the route paths, and with them the `/employees/` prefix of the delete route. Answers are datatypes.
- The mapping between entity and response (`MapToEntity`, `MapToResponse`). Its code is not part of this model, so entity and response are one record. The submit request is assumed to carry a software id and a description.
- EmployeeIssues.GetAllEmployeeProblems: returns a set; the order `ToListAsync` produces is not modelled.
- Concurrency, cancellation, and a hub send that fails after the write-back. Each request is handled whole before the next, and runs to its end. The code has no version stamp or conditional write, so two claims that interleave between read and write are not covered by `Lifecycle.AtMostOneClaim`. In the claim action the write-back is committed before the hub send; a cancellation or a hub failure between the two leaves the claim stored with no message and an error answer. `Lifecycle.RunPublishesClaims`, `Lifecycle.ClaimPublished` and `Lifecycle.RunPublishesEveryClaim` assume neither happens.
- TechIssues.AssignProblemToTech: its contract gives the final session and hub log only; the order of the write-back and the broadcast is fixed by its body (write first) and is not stated in the contract.
- The in-place change of the tracked entity in the claim action. It is a record update written back with `Update`; object identity and aliasing are not modelled.
- Guid width. A Guid is an unbounded natural number.
- The VIP registry (`Models.cs`, `Program.cs`). It is a separate CRUD service whose only rules are declarative validation attributes.
