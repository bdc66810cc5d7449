/** The three tables of the database and the failures a repository call can meet. */
module Database {
  import opened Wrappers

  /** A row of the Users table. */
  datatype User = User(id: int, username: string)

  /** A row of the Follows table: `followerId` follows `followedId`. */
  datatype Follow = Follow(id: int, followerId: int, followedId: int)

  /** A row of the Messages table. `createdDate` is the clock reading taken
      when the message was inserted, as an integer timestamp. */
  datatype Message = Message(id: int, userId: int, content: string, createdDate: int)

  /** The whole database. Rows are kept in insertion order; the `next*` counters
      are the identity columns' next values. */
  datatype Store = Store(
    users: seq<User>,
    follows: seq<Follow>,
    messages: seq<Message>,
    nextUserId: int,
    nextFollowId: int,
    nextMessageId: int)

  /** A new row's id and the database that holds it. */
  datatype Created = Created(id: int, store: Store)

  /** An exception thrown by the database on the `call`-th repository call
      (counting from 0) of one service operation. */
  datatype Fault = Fault(call: nat, message: string)

  /** Stand-in for the framework's message when a save finds no row to
      delete (an optimistic-concurrency failure). */
  const NoRowAffected := "no row affected"
  /** Stand-in for the framework's message when the database rejects a save,
      here a delete that a foreign key still refers to. */
  const SaveRejected := "save rejected by the database"

  predicate Fails(fault: Option<Fault>, call: nat) {
    fault.Some? && fault.value.call == call
  }

  /** Calls 0 up to `n - 1` all return normally. */
  predicate Clear(fault: Option<Fault>, n: nat) {
    fault.None? || n <= fault.value.call
  }

  predicate UserExists(s: Store, id: int) {
    exists u :: u in s.users && u.id == id
  }

  predicate NameTaken(s: Store, username: string) {
    exists u :: u in s.users && u.username == username
  }

  predicate HasEdge(follows: seq<Follow>, followerId: int, followedId: int) {
    exists e :: e in follows && e.followerId == followerId && e.followedId == followedId
  }

  predicate FollowExists(s: Store, id: int) {
    exists e :: e in s.follows && e.id == id
  }

  predicate MessageExists(s: Store, id: int) {
    exists m :: m in s.messages && m.id == id
  }

  /** Some edge or message still refers to user `id`. */
  predicate Referenced(s: Store, id: int) {
    || (exists e :: e in s.follows && (e.followerId == id || e.followedId == id))
    || (exists m :: m in s.messages && m.userId == id)
  }

  /** Foreign-key integrity: both ends of every edge and the author of every
      message are stored users. */
  predicate Referential(s: Store) {
    && (forall e :: e in s.follows ==> UserExists(s, e.followerId) && UserExists(s, e.followedId))
    && (forall m :: m in s.messages ==> UserExists(s, m.userId))
  }

  /** No id occurs twice in the table. */
  predicate UniqueUserIds(users: seq<User>) {
    forall i, j :: 0 <= i < j < |users| ==> users[i].id != users[j].id
  }

  predicate UniqueFollowIds(follows: seq<Follow>) {
    forall i, j :: 0 <= i < j < |follows| ==> follows[i].id != follows[j].id
  }

  predicate UniqueMessageIds(ms: seq<Message>) {
    forall i, j :: 0 <= i < j < |ms| ==> ms[i].id != ms[j].id
  }

  /** The identity counters of `t` are those of `s` or later, so no identity
      value is handed out twice. */
  predicate CountersKept(s: Store, t: Store) {
    && s.nextUserId <= t.nextUserId
    && s.nextFollowId <= t.nextFollowId
    && s.nextMessageId <= t.nextMessageId
  }

  /** Primary-key integrity: every id is below its identity counter and no id
      occurs twice in a table. */
  predicate Valid(s: Store) {
    && (forall i :: 0 <= i < |s.users| ==> s.users[i].id < s.nextUserId)
    && UniqueUserIds(s.users)
    && (forall i :: 0 <= i < |s.follows| ==> s.follows[i].id < s.nextFollowId)
    && UniqueFollowIds(s.follows)
    && (forall i :: 0 <= i < |s.messages| ==> s.messages[i].id < s.nextMessageId)
    && UniqueMessageIds(s.messages)
  }
}
