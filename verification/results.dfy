/** The result records the repositories and services return. */
module Results {
  import opened Wrappers
  import opened Database

  /** What a repository write reports after catching its own exception. */
  datatype OperationResult = OperationResult(success: bool, errorMessage: Option<string>)

  /** A repository write: its report and the database afterwards. */
  datatype Written = Written(result: OperationResult, store: Store)

  /** The service result records, collapsed into one: `data` carries the
      boolean, list or id payload of the richer variants. */
  datatype ServiceResult<+T> = ServiceResult(
    success: bool,
    errorMessage: Option<string>,
    statusCode: Option<int>,
    data: Option<T>)

  /** A service operation that may write: its result and the database afterwards. */
  datatype Outcome<+T> = Outcome(result: ServiceResult<T>, store: Store)

  /** The public view of a user. */
  datatype UserModel = UserModel(id: int, username: string)

  /** The public view of a message; the service leaves its date unset. */
  datatype MessageModel = MessageModel(id: int, userId: int, content: string)

  function Rejected<T>(message: string, code: int): ServiceResult<T> {
    ServiceResult(false, Some(message), Some(code), None)
  }

  /** What every `catch (Exception ex)` block of the services builds. */
  function Internal<T>(message: string): ServiceResult<T> {
    Rejected(message, 500)
  }

  /** A `try` block whose exceptions become status 500 with the exception's message;
      the database is as it was, since a failed save commits nothing. */
  function Catch<T>(body: Call<Outcome<T>>, s: Store): (o: Outcome<T>)
    ensures body.Thrown? ==> o == Outcome(Internal(body.message), s)
    ensures body.Returned? ==> o == body.value
  {
    match body
    case Returned(v) => v
    case Thrown(m) => Outcome(Internal(m), s)
  }

  /** The same for a read-only operation. */
  function CatchRead<T>(body: Call<ServiceResult<T>>): (r: ServiceResult<T>)
    ensures body.Thrown? ==> r == Internal(body.message)
    ensures body.Returned? ==> r == body.value
  {
    match body
    case Returned(v) => v
    case Thrown(m) => Internal(m)
  }

  function ToUserModel(u: User): UserModel {
    UserModel(u.id, u.username)
  }

  function ToUserModels(us: seq<User>): (r: seq<UserModel>)
    ensures |r| == |us|
    ensures forall i :: 0 <= i < |us| ==> r[i] == ToUserModel(us[i])
  {
    seq(|us|, i requires 0 <= i < |us| => ToUserModel(us[i]))
  }

  function ToMessageModel(m: Message): MessageModel {
    MessageModel(m.id, m.userId, m.content)
  }

  function ToMessageModels(ms: seq<Message>): (r: seq<MessageModel>)
    ensures |r| == |ms|
    ensures forall i :: 0 <= i < |ms| ==> r[i] == ToMessageModel(ms[i])
  {
    seq(|ms|, i requires 0 <= i < |ms| => ToMessageModel(ms[i]))
  }
}
