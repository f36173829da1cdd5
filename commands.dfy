/**
 * The commands a replica's log carries and their effect on the store: the
 * dispatch of `_apply_command` in backend/distributed/server.py, with the
 * JSON command decoded into a datatype. `Env` holds what the business
 * rules would read from the outside world while a command runs.
 */
module Commands {
  import opened Records
  import Rules

  datatype Command =
    | Register(username: string, password: string)
    | Authenticate(username: string, password: string)
    | Create(title: string, username: string)
    | UpdateTitle(documentId: string, title: string, username: string)
    | UpdateContent(documentId: string, content: string, baseContent: string, username: string)
    | Delete(documentId: string, username: string)
    | AddUser(documentId: string, username: string, addedBy: string)
    | RemoveUser(documentId: string, username: string, removedBy: string)
    | Unknown(operation: string)

  /** The id `uuid4()` draws, the time `datetime.now()` reads and the diffs `difflib` computes. */
  datatype Env = Env(freshId: string, now: Timestamp, diffs: Rules.DiffInput)

  /** The commands a replica's write methods submit (all but `authenticate_user` and unknown ones). */
  predicate IsWrite(cmd: Command) {
    !cmd.Authenticate? && !cmd.Unknown?
  }

  /**
   * The business-rule call a command selects, with its reply and new store.
   * A non-empty `base_content` selects the merging update. An unknown
   * operation changes nothing; the source only logs a warning for it and
   * returns no reply, so the failed reply here, carrying the warning's text,
   * stands in for that log line.
   */
  function Execute(s: Store, cmd: Command, env: Env): (o: Rules.Outcome)
    ensures !o.reply.success ==> o.store == s
    ensures !IsWrite(cmd) ==> o.store == s
  {
    match cmd
    case Register(username, password) => Rules.RegisterUser(s, username, password)
    case Authenticate(username, password) => Rules.Outcome(s, Rules.AuthenticateUser(s, username, password))
    case Create(title, username) => Rules.CreateDocument(s, title, username, env.freshId, env.now)
    case UpdateTitle(documentId, title, username) => Rules.UpdateDocumentTitle(s, documentId, title, username, env.now)
    case UpdateContent(documentId, content, baseContent, username) =>
      if baseContent != "" then Rules.UpdateDocumentContentWithMerge(s, documentId, content, baseContent, username, env.now, env.diffs)
      else Rules.UpdateDocumentContent(s, documentId, content, username, env.now)
    case Delete(documentId, username) => Rules.DeleteDocument(s, documentId, username)
    case AddUser(documentId, username, addedBy) => Rules.AddUserToDocument(s, documentId, username, addedBy)
    case RemoveUser(documentId, username, removedBy) => Rules.RemoveUserFromDocument(s, documentId, username, removedBy)
    case Unknown(operation) => Rules.Outcome(s, Rules.Fail("Unknown operation: " + operation))
  }

  /** Every command keeps the sharing invariant of the store. */
  lemma ExecuteKeepsConsistent(s: Store, cmd: Command, env: Env)
    requires Rules.Consistent(s)
    ensures Rules.Consistent(Execute(s, cmd, env).store)
  {
    match cmd
    case Register(username, password) => Rules.RegisterUserKeepsConsistent(s, username, password);
    case Authenticate(_, _) =>
    case Create(title, username) => Rules.CreateDocumentKeepsConsistent(s, title, username, env.freshId, env.now);
    case UpdateTitle(documentId, title, username) => Rules.UpdateDocumentTitleKeepsConsistent(s, documentId, title, username, env.now);
    case UpdateContent(documentId, content, baseContent, username) =>
      if baseContent != "" {
        Rules.UpdateDocumentContentWithMergeKeepsConsistent(s, documentId, content, baseContent, username, env.now, env.diffs);
      } else {
        Rules.UpdateDocumentContentKeepsConsistent(s, documentId, content, username, env.now);
      }
    case Delete(documentId, username) => Rules.DeleteDocumentKeepsConsistent(s, documentId, username);
    case AddUser(documentId, username, addedBy) => Rules.AddUserToDocumentKeepsConsistent(s, documentId, username, addedBy);
    case RemoveUser(documentId, username, removedBy) => Rules.RemoveUserFromDocumentKeepsConsistent(s, documentId, username, removedBy);
    case Unknown(_) =>
  }

  /**
   * A leader's write method runs its command on the business rules itself
   * as well as through the log, so a command can run twice. A registration
   * that went through is refused the second time, with the store as the
   * first run left it.
   */
  lemma RegisterRunTwice(s: Store, username: string, password: string, env1: Env, env2: Env)
    requires Execute(s, Register(username, password), env1).reply.success
    ensures var first := Execute(s, Register(username, password), env1).store;
      Execute(first, Register(username, password), env2) == Rules.Outcome(first, Rules.Fail("Username already exists."))
  {
  }

  /** A document creation that runs twice creates two documents, under the two ids drawn. */
  lemma CreateRunTwice(s: Store, title: string, username: string, env1: Env, env2: Env)
    requires Execute(s, Create(title, username), env1).reply.success
    requires env2.freshId !in s.documents && env2.freshId != env1.freshId
    ensures var first := Execute(s, Create(title, username), env1).store;
      var second := Execute(first, Create(title, username), env2);
      && second.reply.success
      && env1.freshId in second.store.documents && env2.freshId in second.store.documents
      && second.store.users[username].documents == s.users[username].documents + [env1.freshId, env2.freshId]
  {
  }

  /** The store a sequence of commands leaves, each run with its own environment. */
  function Replay(s: Store, cmds: seq<Command>, envs: seq<Env>): (r: Store)
    requires |cmds| == |envs|
    ensures (forall k | 0 <= k < |cmds| :: !IsWrite(cmds[k])) ==> r == s
    decreases |cmds|
  {
    if cmds == [] then s
    else Execute(Replay(s, cmds[..|cmds| - 1], envs[..|envs| - 1]), cmds[|cmds| - 1], envs[|envs| - 1]).store
  }

  /** Replaying any log from a consistent store ends in a consistent store. */
  lemma {:induction false} ReplayKeepsConsistent(s: Store, cmds: seq<Command>, envs: seq<Env>)
    requires |cmds| == |envs|
    requires Rules.Consistent(s)
    ensures Rules.Consistent(Replay(s, cmds, envs))
    decreases |cmds|
  {
    if cmds != [] {
      ReplayKeepsConsistent(s, cmds[..|cmds| - 1], envs[..|envs| - 1]);
      ExecuteKeepsConsistent(Replay(s, cmds[..|cmds| - 1], envs[..|envs| - 1]), cmds[|cmds| - 1], envs[|envs| - 1]);
    }
  }
}
