/** The backend as a sequence of service calls against one database. Each
    command carries the fault (if any) its repository calls meet. */
module Backend {
  import opened Wrappers
  import opened Database
  import opened Results
  import UserService
  import FollowService
  import MessageService
  import FollowGraph
  import Integrity
  import UserRepository

  /** Every service operation that can change the database. */
  datatype Command =
    | CreateUser(username: string, fault: Option<Fault>)
    | EditUser(username: string, userId: int, fault: Option<Fault>)
    | DeleteUser(userId: int, fault: Option<Fault>)
    | FollowUser(followerId: int, followeeId: int, fault: Option<Fault>)
    | UnFollowUser(followerId: int, followeeId: int, fault: Option<Fault>)
    | CreateMessage(userId: int, content: string, now: int, fault: Option<Fault>)
    | UpdateMessage(content: string, messageId: int, fault: Option<Fault>)
    | DeleteMessage(messageId: int, fault: Option<Fault>)

  predicate ChangesFollows(c: Command) {
    c.FollowUser? || c.UnFollowUser?
  }

  /** The database after one command. */
  function Step(s: Store, c: Command): Store {
    match c
    case CreateUser(username, fault) => UserService.CreateUser(s, fault, username).store
    case EditUser(username, userId, fault) => UserService.EditUser(s, fault, username, userId).store
    case DeleteUser(userId, fault) => UserService.DeleteUser(s, fault, userId).store
    case FollowUser(a, b, fault) => FollowService.FollowUser(s, fault, a, b).store
    case UnFollowUser(a, b, fault) => FollowService.UnFollowUser(s, fault, a, b).store
    case CreateMessage(userId, content, now, fault) => MessageService.CreateMessage(s, fault, userId, content, now).store
    case UpdateMessage(content, messageId, fault) => MessageService.UpdateMessage(s, fault, content, messageId).store
    case DeleteMessage(messageId, fault) => MessageService.DeleteMessage(s, fault, messageId).store
  }

  /** The database after a sequence of commands, first to last. */
  function Run(s: Store, cs: seq<Command>): Store
    decreases |cs|
  {
    if |cs| == 0 then s else Run(Step(s, cs[0]), cs[1..])
  }

  /** Only follow and unfollow touch the Follows table. */
  lemma StepKeepsOtherFollows(s: Store, c: Command)
    requires !ChangesFollows(c)
    ensures Step(s, c).follows == s.follows
  {
  }

  /** Every command, whatever it meets, keeps the follow edges sound. */
  lemma StepKeepsSound(s: Store, c: Command)
    requires FollowGraph.SoundEdges(s.follows)
    ensures FollowGraph.SoundEdges(Step(s, c).follows)
  {
    match c
    case FollowUser(a, b, fault) => FollowGraph.FollowUserKeepsSound(s, fault, a, b);
    case UnFollowUser(a, b, fault) => FollowGraph.UnFollowUserKeepsSound(s, fault, a, b);
    case _ => StepKeepsOtherFollows(s, c);
  }

  /** No sequence of service calls, with any failures along the way, makes a
      user follow itself or records the same pair twice. */
  lemma {:induction false} RunKeepsSound(s: Store, cs: seq<Command>)
    requires FollowGraph.SoundEdges(s.follows)
    ensures FollowGraph.SoundEdges(Run(s, cs).follows)
    decreases |cs|
  {
    if |cs| > 0 {
      StepKeepsSound(s, cs[0]);
      RunKeepsSound(Step(s, cs[0]), cs[1..]);
    }
  }

  /** A run with no follow or unfollow leaves the Follows table as it was. */
  lemma {:induction false} RunKeepsFollows(s: Store, cs: seq<Command>)
    requires forall i :: 0 <= i < |cs| ==> !ChangesFollows(cs[i])
    ensures Run(s, cs).follows == s.follows
    decreases |cs|
  {
    if |cs| > 0 {
      StepKeepsOtherFollows(s, cs[0]);
      RunKeepsFollows(Step(s, cs[0]), cs[1..]);
    }
  }

  /** Seeding adds users but no edges; from any database without edges no
      run creates a self-follow or a duplicate pair. */
  lemma NoEdgesStaysSound(s: Store, cs: seq<Command>)
    requires s.follows == []
    ensures FollowGraph.SoundEdges(Run(s, cs).follows)
  {
    RunKeepsSound(s, cs);
  }

  /** The database after one command when follow and unfollow run as the
      controller's code has them, answering success whatever the save did. */
  function StepAsWritten(s: Store, c: Command): Store {
    match c
    case FollowUser(a, b, fault) => FollowService.FollowUserAsWritten(s, fault, a, b).store
    case UnFollowUser(a, b, fault) => FollowService.UnFollowUserAsWritten(s, fault, a, b).store
    case _ => Step(s, c)
  }

  function RunAsWritten(s: Store, cs: seq<Command>): Store
    decreases |cs|
  {
    if |cs| == 0 then s else RunAsWritten(StepAsWritten(s, cs[0]), cs[1..])
  }

  /** The masked save changes only the answer, never the database. */
  lemma StepAsWrittenSameStore(s: Store, c: Command)
    ensures StepAsWritten(s, c) == Step(s, c)
  {
  }

  lemma {:induction false} RunAsWrittenSameStore(s: Store, cs: seq<Command>)
    ensures RunAsWritten(s, cs) == Run(s, cs)
    decreases |cs|
  {
    if |cs| > 0 {
      StepAsWrittenSameStore(s, cs[0]);
      RunAsWrittenSameStore(Step(s, cs[0]), cs[1..]);
    }
  }

  /** The code as written keeps the follow edges sound as well. */
  lemma RunAsWrittenKeepsSound(s: Store, cs: seq<Command>)
    requires FollowGraph.SoundEdges(s.follows)
    ensures FollowGraph.SoundEdges(RunAsWritten(s, cs).follows)
  {
    RunAsWrittenSameStore(s, cs);
    RunKeepsSound(s, cs);
  }

  /** Every command keeps every edge and message attached to stored users. */
  lemma StepKeepsReferential(s: Store, c: Command)
    requires Referential(s)
    ensures Referential(Step(s, c))
  {
    match c
    case CreateUser(username, fault) => Integrity.CreateUserKeepsReferential(s, fault, username);
    case EditUser(username, userId, fault) => Integrity.EditUserKeepsReferential(s, fault, username, userId);
    case DeleteUser(userId, fault) => Integrity.DeleteUserKeepsReferential(s, fault, userId);
    case FollowUser(a, b, fault) => Integrity.FollowUserKeepsReferential(s, fault, a, b);
    case UnFollowUser(a, b, fault) => Integrity.UnFollowUserKeepsReferential(s, fault, a, b);
    case CreateMessage(userId, content, now, fault) => Integrity.CreateMessageKeepsReferential(s, fault, userId, content, now);
    case UpdateMessage(content, messageId, fault) => Integrity.UpdateMessageKeepsReferential(s, fault, content, messageId);
    case DeleteMessage(messageId, fault) => Integrity.DeleteMessageKeepsReferential(s, fault, messageId);
  }

  /** No sequence of service calls leaves an edge or a message pointing at a
      user that is not stored. */
  lemma {:induction false} RunKeepsReferential(s: Store, cs: seq<Command>)
    requires Referential(s)
    ensures Referential(Run(s, cs))
    decreases |cs|
  {
    if |cs| > 0 {
      StepKeepsReferential(s, cs[0]);
      RunKeepsReferential(Step(s, cs[0]), cs[1..]);
    }
  }

  /** Every command keeps the primary keys unique and below their counters. */
  lemma StepKeepsValid(s: Store, c: Command)
    requires Valid(s)
    ensures Valid(Step(s, c))
  {
    match c
    case CreateUser(username, fault) => Integrity.CreateUserKeepsValid(s, fault, username);
    case EditUser(username, userId, fault) => Integrity.EditUserKeepsValid(s, fault, username, userId);
    case DeleteUser(userId, fault) => Integrity.DeleteUserKeepsValid(s, fault, userId);
    case FollowUser(a, b, fault) => Integrity.FollowUserKeepsValid(s, fault, a, b);
    case UnFollowUser(a, b, fault) => Integrity.UnFollowUserKeepsValid(s, fault, a, b);
    case CreateMessage(userId, content, now, fault) => Integrity.CreateMessageKeepsValid(s, fault, userId, content, now);
    case UpdateMessage(content, messageId, fault) => Integrity.UpdateMessageKeepsValid(s, fault, content, messageId);
    case DeleteMessage(messageId, fault) => Integrity.DeleteMessageKeepsValid(s, fault, messageId);
  }

  /** No sequence of service calls makes two rows share an id or hands out an
      id at or above its counter. */
  lemma {:induction false} RunKeepsValid(s: Store, cs: seq<Command>)
    requires Valid(s)
    ensures Valid(Run(s, cs))
    decreases |cs|
  {
    if |cs| > 0 {
      StepKeepsValid(s, cs[0]);
      RunKeepsValid(Step(s, cs[0]), cs[1..]);
    }
  }

  /** After any run from a valid database, a new user gets an unused id and
      is read back under it. */
  lemma CreateAfterRunReadsBack(s: Store, cs: seq<Command>, username: string)
    requires Valid(s)
    ensures var t := Run(s, cs);
      var r := UserRepository.CreateUser(t, None, 0, username);
      && !UserExists(t, r.value.id)
      && UserRepository.GetUserById(r.value.store, None, 0, r.value.id) == Returned(Some(User(r.value.id, username)))
  {
    RunKeepsValid(s, cs);
    UserRepository.CreateThenGetById(Run(s, cs), username);
  }
}
