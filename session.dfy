/**
 * The two services the controllers are handed: the document session that
 * stores problems, and the real-time hub that broadcasts to client groups.
 * Both are reduced to the state they keep; SaveChangesAsync commits what
 * the session already holds, so it has no counterpart here.
 */
module Session {
  import opened Problems

  /** The document session, reduced to the problem documents it stores. */
  class DocumentSession {
    var problems: Store

    ghost predicate Valid()
      reads this
    {
      KeyedById(problems)
    }

    /** A session over documents already persisted. */
    constructor (persisted: Store)
      requires KeyedById(persisted)
      ensures Valid() && problems == persisted
    {
      problems := persisted;
    }

    /** Store: inserts the document under its id, replacing any stored one. */
    method Store(entity: Problem)
      requires Valid()
      modifies this
      ensures Valid()
      ensures problems == old(problems)[entity.id := entity]
    {
      problems := problems[entity.id := entity];
    }

    /** Update: writes back a document that is already stored. */
    method Update(entity: Problem)
      requires Valid()
      requires entity.id in problems
      modifies this
      ensures Valid()
      ensures problems.Keys == old(problems).Keys
      ensures problems == old(problems)[entity.id := entity]
    {
      problems := problems[entity.id := entity];
    }

    /** HardDelete: removes the document for good. */
    method HardDelete(entity: Problem)
      requires Valid()
      modifies this
      ensures Valid()
      ensures problems == old(problems) - {entity.id}
    {
      problems := problems - {entity.id};
    }
  }

  /** The hub, reduced to the log of the messages it was asked to send. */
  class HelpDeskHub {
    var sent: seq<Notification>

    constructor ()
      ensures sent == []
    {
      sent := [];
    }

    /** Clients.Group(group).IssueUpdated(issue): appends one message. */
    method IssueUpdated(group: string, issue: Problem)
      modifies this
      ensures sent == old(sent) + [Notification.IssueUpdated(group, issue)]
    {
      sent := sent + [Notification.IssueUpdated(group, issue)];
    }
  }
}
