# DSTT_Backend service core in Dafny

DSTT_Backend is a small social backend. It has users, a follow graph and short
messages, with a dashboard that shows a user's own messages and those of the
people they follow. This project models its service layer (`FollowService`,
`MessageService`, `UserService`) and the three repositories under it. The
model runs over an immutable database value.

- `Database.Store` holds the three tables as sequences in insertion order,
  plus the three identity counters.
- A repository call is a pure function of the store.
- Database exceptions are modelled with a `Fault`: the service's repository
  calls are numbered 0, 1, 2, … and the numbered call throws the fault's
  message.
  - Reads that throw return `Thrown(message)`.
  - Repository writes that catch their own exception return an
    `OperationResult` with `success == false`.
  - `CreateUser` and `CreateMessage` do not catch, so they throw.
- The service `try`/`catch` is `Results.Catch`/`Results.CatchRead`.
  - A thrown call becomes status 500 with the exception's message.
  - The store is left as it was, because nothing was saved.
- Every service answer is one `ServiceResult`: success, error message, status
  code and data. Absent fields are `None`, which is C#'s `null`.

Modules follow the source: `UserRepository`, `FollowRepository`,
`MessageRepository`, `UserService`, `FollowService`, `MessageService`.

- `FollowGraph` holds the follow-graph invariant: no self-follow and no pair
  recorded twice.
- `Timeline` relates following to the dashboard.
- `Integrity` shows that each service write keeps every edge and message
  attached to a stored user, and keeps ids unique and below their identity
  counters.
- `Backend` runs any sequence of service calls and proves both invariants
  for all of them, for the corrected follow/unfollow and for the code as
  written.

Where the code and the written design disagree, the model follows the code:

- A missing user in follow/unfollow/is-following is status 400, not a
  not-found status (`DSTT_Backend/Services/FollowService.cs:31-38`).
- The self-follow check comes only after both users are found to exist.
- `CreatedDate` is the clock reading at insertion, time of day included.
  - The configured provider is the in-memory database
    (`DSTT_Backend/Program.cs:12-15`), which ignores the `date` column type.
  - The model's `now` is that reading as an integer timestamp.
- The dashboard has no tie-break between messages with the same timestamp.
  - The model sorts stably, and no contract depends on the order of ties.
- An author listed twice does not duplicate that author's messages.
- A delete whose row is not stored fails: saving it finds no row, and the
  repository reports the framework's exception. This holds for users, edges
  and messages alike.
- A user that still has edges or messages cannot be deleted.
  - The foreign keys are required and client-set-null, not cascading
    (`DSTT_Backend/Database/DsttDbContext.cs:39-47`).
  - The save fails, the repository reports the failure and the service
    answers 500.
  - `Database.Referential`, every edge and message pointing at a stored user,
    is therefore kept by every run (`Backend.RunKeepsReferential`).
- Status codes for internal failures are not uniform:
  - `MessageService.UpdateMessage`/`DeleteMessage` pass the repository's
    failure through with no status code.
  - `UserService.DeleteUser`'s `catch` sets no status code either.
- The existence message is spaced (`exists: False`) in `FollowUser` but
  unspaced (`exists:False`) in `UnFollowUser` and `IsFollowing`
  (`DSTT_Backend/Services/FollowService.cs:36,102,250`). The model keeps
  each as written.
  - The service tests expect the spaced form for all three
    (`DSTT_Test/ServicesTests/FollowServiceTest.cs:106,297`), so two of them
    disagree with the code.
  - `FollowService.MissingUsersReports` states the exact strings.

## Model

| member | source | states |
|---|---|---|
| UserRepository.FindFirst | DSTT_Backend/Repositories/UserRepository.cs:18-28 | some row satisfies the predicate iff a row is found, and the row found is stored and satisfies it |
| UserRepository.GetUserById | DSTT_Backend/Repositories/UserRepository.cs:18-22 | the row with that id, or none when no row has it; the fault's message when the read throws |
| UserRepository.GetUserByName | DSTT_Backend/Repositories/UserRepository.cs:24-28 | a row with that name, or none exactly when the name is not taken |
| UserRepository.GetUsers | DSTT_Backend/Repositories/UserRepository.cs:30-34 | every stored row, in table order |
| UserRepository.CreateUser | DSTT_Backend/Repositories/UserRepository.cs:36-47 | appends one row with the next identity value and the name, and returns that id; a failed save throws and changes nothing |
| UserRepository.EditUser | DSTT_Backend/Repositories/UserRepository.cs:49-67 | renames exactly the rows with the user's id and keeps every other row; a failed save is reported, not thrown, and changes nothing |
| UserRepository.DeleteUser | DSTT_Backend/Repositories/UserRepository.cs:69-87 | removes exactly the rows with that id when the user exists and nothing refers to it; an absent user or a referenced one is a reported failure; a failed save is reported and changes nothing |
| UserRepository.CreateThenGetById | DSTT_Backend/Repositories/UserRepository.cs:18-47 | with unique ids below the counter, the new id was unused and reading it back gives the new user |
| UserRepository.WithoutUserKeepsKeys | DSTT_Backend/Repositories/UserRepository.cs:69-75 | removing users keeps user ids pairwise distinct |
| UserRepository.CreateKeepsValid | DSTT_Backend/Repositories/UserRepository.cs:36-47 | inserting a user keeps every id unique and below the counter |
| UserRepository.EditThenGetById | DSTT_Backend/Repositories/UserRepository.cs:49-55 | after an edit, reading the id back gives the new name |
| UserRepository.DeleteThenGetById | DSTT_Backend/Repositories/UserRepository.cs:69-75 | deleting an existing, unreferenced user succeeds, and reading the id back gives nothing |
| UserRepository.DeleteMissingUserFails | DSTT_Test/RepositoriesTests/UserRepositoryTest.cs:133-142 | deleting a user that is not stored is a reported failure and changes nothing |
| FollowRepository.IsFollowing | DSTT_Backend/Repositories/FollowRepository.cs:17-21 | an edge from a to b when one exists, none exactly when there is no such edge |
| FollowRepository.FollowUser | DSTT_Backend/Repositories/FollowRepository.cs:23-45 | appends the edge with no check for duplicates or self-edges; a failed save is reported and changes nothing |
| FollowRepository.UnFollowUser | DSTT_Backend/Repositories/FollowRepository.cs:47-63 | succeeds iff no fault and the edge's id is stored, and then removes exactly the edges with that id; an absent edge is a reported failure; a failure changes nothing |
| FollowRepository.UnFollowMissingEdgeFails | DSTT_Backend/Repositories/FollowRepository.cs:47-63 | deleting an edge that is not stored is a reported failure and changes nothing |
| FollowRepository.WithoutEdgeKeepsKeys | DSTT_Backend/Repositories/FollowRepository.cs:47-53 | removing edges keeps edge ids pairwise distinct |
| FollowRepository.GetFollowers | DSTT_Backend/Repositories/FollowRepository.cs:65-73 | the join of edges into the user with the Users table (see `FollowersOf`); a thrown read carries the fault's message |
| FollowRepository.GetFollowing | DSTT_Backend/Repositories/FollowRepository.cs:75-83 | the join of edges out of the user with the Users table (see `FollowingOf`); a thrown read carries the fault's message |
| FollowRepository.FollowersOf | DSTT_Backend/Repositories/FollowRepository.cs:65-73 | a user is listed iff an edge from them into the user exists and their row exists; never longer than the edges |
| FollowRepository.FollowingOf | DSTT_Backend/Repositories/FollowRepository.cs:75-83 | a user is listed iff an edge to them from the user exists and their row exists; never longer than the edges |
| FollowRepository.NoEdgesNoNeighbours | DSTT_Backend/Repositories/FollowRepository.cs:65-83 | a user with no edges has no followers and follows nobody |
| FollowRepository.RepositoryAdmitsDuplicatesAndSelfEdges | DSTT_Backend/Repositories/FollowRepository.cs:23-35 | the repository alone records a self-edge and the same pair twice |
| MessageRepository.InsertNewestFirst | DSTT_Backend/Repositories/MessageRepository.cs:20 | inserting into a newest-first list keeps it newest first and adds exactly one occurrence |
| MessageRepository.SortNewestFirst | DSTT_Backend/Repositories/MessageRepository.cs:35-36 | the result is newest first and a permutation of the input |
| MessageRepository.ByAuthors | DSTT_Backend/Repositories/MessageRepository.cs:35 | each message occurs as often as stored if its author is listed and not at all otherwise, however often the author is listed |
| MessageRepository.GetMessages | DSTT_Backend/Repositories/MessageRepository.cs:18-21 | exactly the user's messages, each as often as stored, newest first |
| MessageRepository.GetMessage | DSTT_Backend/Repositories/MessageRepository.cs:23-26 | the message with that id, or none exactly when no message has it |
| MessageRepository.GetMessagesFromUserIds | DSTT_Backend/Repositories/MessageRepository.cs:28-39 | an empty author list gives the empty list without reading; otherwise exactly the listed authors' messages, newest first |
| MessageRepository.CreateMessage | DSTT_Backend/Repositories/MessageRepository.cs:41-54 | appends one message with the next id, the author, the content and clock reading; a failed save throws |
| MessageRepository.UpdateMessage | DSTT_Backend/Repositories/MessageRepository.cs:78-98 | changes only the content of the message with that id; id, author, timestamp and all other messages stay |
| MessageRepository.DeleteMessage | DSTT_Backend/Repositories/MessageRepository.cs:56-76 | succeeds iff no fault and the message's id is stored, and then removes exactly the messages with that id; an absent message is a reported failure; a failure changes nothing |
| MessageRepository.DeleteMissingMessageFails | DSTT_Backend/Repositories/MessageRepository.cs:56-76 | deleting a message that is not stored is a reported failure and changes nothing |
| MessageRepository.WithoutMessageKeepsKeys | DSTT_Backend/Repositories/MessageRepository.cs:56-65 | removing messages keeps message ids pairwise distinct |
| MessageRepository.CreateThenGetMessage | DSTT_Backend/Repositories/MessageRepository.cs:23-54 | with unique ids, the new id was unused and reading it back gives author, content and timestamp |
| MessageRepository.DeleteThenGetMessage | DSTT_Backend/Repositories/MessageRepository.cs:56-65 | after a delete, reading the id back gives nothing |
| Results.Catch | DSTT_Backend/Services/FollowService.cs:73-82 | a thrown call becomes failure 500 with the exception's message and the store as before; a returned outcome passes through |
| Results.CatchRead | DSTT_Backend/Services/FollowService.cs:180-189 | a thrown read becomes failure 500 with the exception's message |
| Results.ToUserModels | DSTT_Backend/Services/FollowService.cs:166-171 | the users mapped to (Id, Username), same length and order |
| Results.ToMessageModels | DSTT_Backend/Services/MessageService.cs:44-49 | the messages mapped to (Id, UserId, Content), same length and order |
| Text.NatToString | DSTT_Backend/Services/FollowService.cs:36 | decimal digits with no leading zero whose value is the number |
| Text.IntToString | DSTT_Backend/Services/FollowService.cs:36 | a minus sign exactly for negative numbers, followed by digits whose value is the magnitude |
| Text.IntToStringInjective | DSTT_Backend/Services/FollowService.cs:36 | different numbers give different strings |
| Text.BoolToString | DSTT_Backend/Services/FollowService.cs:36 | "True" or "False", told apart by the first letter |
| UserService.GetUsers | DSTT_Backend/Services/UserService.cs:18-33 | every user mapped to (Id, Username), same count and order; a failed read propagates |
| UserService.GetUser | DSTT_Backend/Services/UserService.cs:35-48 | none when absent, otherwise exactly that user's (Id, Username) |
| UserService.GetUserByName | DSTT_Backend/Services/UserService.cs:50-63 | none exactly when the name is not taken, otherwise a user with that name |
| UserService.CreateUser | DSTT_Backend/Services/UserService.cs:65-101 | a taken name is 400 "User already exists" with nothing written; success appends exactly the new user under the counter's value, which it advances, and returns that id with no status; failures are 500 and change nothing; counters never go back |
| UserService.EditUser | DSTT_Backend/Services/UserService.cs:103-158 | absent id 404, unchanged name 400 (checked after existence), a failed save 500 with the repository's message; success renames exactly that user |
| UserService.DeleteUser | DSTT_Backend/Services/UserService.cs:160-203 | absent id 404, a failed save 500, a thrown read failure with no status; a user with edges or messages is refused with 500; success happens only for an unreferenced user, leaves the counters, and removes exactly that user |
| UserService.CreateThenGetUser | DSTT_Backend/Services/UserService.cs:35-101 | a created user is found by id and by name |
| UserService.CreateUserKeepsNamesUnique | DSTT_Backend/Services/UserService.cs:69-78 | creating users never makes two users share a name |
| UserService.EditUserCanDuplicateNames | DSTT_Backend/Services/UserService.cs:118-126 | renaming checks only the user's own name, so two users can end up with one name |
| UserService.DeleteThenGetUser | DSTT_Backend/Services/UserService.cs:160-190 | after a successful delete the user is not found |
| FollowService.PairCheck | DSTT_Backend/Services/FollowService.cs:25-49 | existence first (message naming both flags), then the self check; a thrown lookup is passed on |
| FollowService.FollowUser | DSTT_Backend/Services/FollowService.cs:20-84 | check order existence, self, duplicate, each 400 with nothing written; success adds exactly the edge (follower, followee) under the advanced counter with 200; a failed save is 500 (corrected, see Findings) |
| FollowService.FollowUserAsWritten | DSTT_Backend/Services/FollowService.cs:62-71 | the source's version: answers 200 after calling the write whatever the write reported; its store is always the corrected version's, and it differs from it only when the save fails |
| FollowService.UnFollowUser | DSTT_Backend/Services/FollowService.cs:86-148 | check order existence, self, missing edge, each 400 with nothing written; success removes exactly the edge found with 200; a failed save is 500 (corrected) |
| FollowService.UnFollowUserAsWritten | DSTT_Backend/Services/FollowService.cs:127-136 | the source's version: answers 200 after calling the delete whatever it reported; its store is always the corrected version's |
| FollowService.EdgeToRemove | DSTT_Backend/Services/FollowService.cs:117-129 | the edge removed goes from the follower to the followee |
| FollowService.IsFollowing | DSTT_Backend/Services/FollowService.cs:234-284 | existence and self checks as for follow; then success with true iff the edge exists; never writes |
| FollowService.GetFollowers | DSTT_Backend/Services/FollowService.cs:150-190 | absent user 404 "User doesn't exist"; otherwise 200 with the followers mapped in order, each of them following the user |
| FollowService.GetFollowing | DSTT_Backend/Services/FollowService.cs:192-232 | absent user 404; otherwise 200 with the followed users mapped in order, each followed by the user |
| FollowService.ExistenceMessageReportsBoth | DSTT_Backend/Services/FollowService.cs:36 | the existence message determines both ids and both existence flags |
| FollowService.MissingUsersReports | DSTT_Backend/Services/FollowService.cs:31-38 | on an empty user table the three operations answer the exact strings, spaced for follow and unspaced for the other two |
| FollowService.FollowThenIsFollowing | DSTT_Backend/Services/FollowService.cs:51-71 | after a follow the pair is followed and following again is "Already following user" |
| FollowService.NoEdgesEmptyLists | DSTT_Backend/Services/FollowService.cs:150-232 | an existing user with no edges gets two successful empty lists |
| FollowService.FollowUserAsWrittenMasksFailedSave | DSTT_Backend/Services/FollowService.cs:64-71 | a failed save in the source's version answers 200 with no edge added |
| FollowService.UnFollowUserAsWrittenMasksFailedSave | DSTT_Backend/Services/FollowService.cs:129-136 | a failed delete in the source's version answers 200 with the edge still there |
| FollowGraph.AppendKeepsSound | DSTT_Backend/Services/FollowService.cs:41-64 | a new edge between two different users whose pair is absent keeps the edges sound |
| FollowGraph.WithoutEdgeKeepsSound | DSTT_Backend/Repositories/FollowRepository.cs:47-53 | removing edges keeps the edges sound |
| FollowGraph.FollowUserKeepsSound | DSTT_Backend/Services/FollowService.cs:20-84 | every outcome of follow, faults included, keeps no self-edge and no duplicate pair |
| FollowGraph.UnFollowUserKeepsSound | DSTT_Backend/Services/FollowService.cs:86-148 | every outcome of unfollow keeps the edges sound |
| FollowGraph.FollowUserAsWrittenKeepsSound | DSTT_Backend/Services/FollowService.cs:20-84 | the source's follow keeps the edges sound too |
| FollowGraph.UnFollowUserAsWrittenKeepsSound | DSTT_Backend/Services/FollowService.cs:86-148 | the source's unfollow keeps the edges sound too |
| FollowGraph.FollowThenUnfollow | DSTT_Backend/Services/FollowService.cs:117-136 | on distinct pairs, follow then unfollow succeeds and leaves the pair absent |
| FollowGraph.UnfollowRemovesExactlyThePair | DSTT_Backend/Services/FollowService.cs:117-129 | on sound edges with unique ids, unfollow leaves the pair absent and keeps every other pair's edge |
| MessageService.DashboardAuthors | DSTT_Backend/Services/MessageService.cs:38-40 | the followed users' ids in order, then the user's own id |
| MessageService.AuthorsAreSelfAndFollowed | DSTT_Backend/Services/MessageService.cs:38-40 | an id is in the author list iff it is the user or an existing user the user follows |
| MessageService.NoFollowsAuthorsSelf | DSTT_Backend/Services/MessageService.cs:38-40 | with no follows the author list is exactly the user's id |
| MessageService.DashboardFeed | DSTT_Backend/Services/MessageService.cs:38-42 | the feed is newest first and holds each message of the user or of a followed user as often as stored, and nothing else |
| MessageService.GetDashboardMessages | DSTT_Backend/Services/MessageService.cs:22-69 | absent user 400 "User does not exist" with no later reads; success has no status code and is the feed mapped in order; any failing read is 500 |
| MessageService.GetUserMessages | DSTT_Backend/Services/MessageService.cs:71-111 | absent user 400; success lists only that user's messages in repository order; failures 500 |
| MessageService.CreateMessage | DSTT_Backend/Services/MessageService.cs:187-221 | absent author 400 with nothing written; success appends exactly the message under the counter's value, which it advances, and returns that id |
| MessageService.UpdateMessage | DSTT_Backend/Services/MessageService.cs:113-147 | absent message 400 "Message does not exist" with nothing written; otherwise the repository's report with no status, changing only that content |
| MessageService.DeleteMessage | DSTT_Backend/Services/MessageService.cs:149-185 | absent message 400 with nothing deleted; otherwise the repository's report with no status; success leaves the table without exactly that id, in order |
| Timeline.FollowShowsMessages | DSTT_Backend/Services/MessageService.cs:38-42 | after a follow every message of the followed user is on the follower's dashboard |
| Timeline.UnfollowHidesMessages | DSTT_Backend/Services/MessageService.cs:38-42 | after an unfollow on sound edges none of the unfollowed user's messages is on the dashboard |
| Timeline.HelloSetup | DSTT_Backend/Services/UserService.cs:65-86 | two sign-ups, a follow and a post from an empty database give ids 1, 2 and message 1 |
| Timeline.SingleMessageDashboard | DSTT_Backend/Services/MessageService.cs:38-55 | a single message whose author is the user or followed is the whole dashboard |
| Timeline.HelloOnFollowerDashboard | DSTT_Test/ServicesTests/MessageServiceTest.cs:75-86 | the followed user's message is on the follower's dashboard |
| Timeline.HelloOnAuthorDashboard | DSTT_Test/ServicesTests/MessageServiceTest.cs:93-106 | the author's own message is on the author's dashboard |
| Backend.StepKeepsSound | DSTT_Backend/Services/FollowService.cs:20-148 | any one service write, with any fault, keeps the edges sound |
| Backend.RunKeepsSound | DSTT_Backend/Services/FollowService.cs:20-148 | any sequence of service writes keeps the edges sound |
| Backend.RunKeepsFollows | DSTT_Backend/Services/UserService.cs:160-190 | a run with no follow or unfollow, deletes included, leaves the Follows table as it was |
| Integrity.CreateUserKeepsReferential | DSTT_Backend/Services/UserService.cs:65-101 | creating a user keeps every edge and message attached to a stored user |
| Integrity.EditUserKeepsReferential | DSTT_Backend/Services/UserService.cs:103-158 | renaming keeps every edge and message attached to a stored user |
| Integrity.DeleteUserKeepsReferential | DSTT_Backend/Services/UserService.cs:160-203 | deleting a user never leaves an edge or message without its user |
| Integrity.UpdateMessageKeepsReferential | DSTT_Backend/Services/MessageService.cs:113-147 | editing a message keeps its author |
| Backend.StepAsWrittenSameStore | DSTT_Backend/Services/FollowService.cs:62-71 | the source's follow and unfollow leave the same database as the corrected ones |
| Backend.RunAsWrittenSameStore | DSTT_Backend/Services/FollowService.cs:20-148 | any run with the source's follow and unfollow leaves the same database as with the corrected ones |
| Backend.RunAsWrittenKeepsSound | DSTT_Backend/Services/FollowService.cs:20-148 | any run of the code as written keeps the edges sound |
| Backend.StepKeepsReferential | DSTT_Backend/Database/DsttDbContext.cs:39-67 | any one service write keeps every edge and message attached to a stored user |
| Backend.RunKeepsReferential | DSTT_Backend/Database/DsttDbContext.cs:39-67 | any sequence of service writes keeps every edge and message attached to a stored user |
| Integrity.CreateUserKeepsValid | DSTT_Backend/Services/UserService.cs:65-101 | creating a user keeps ids unique and below their counters |
| Integrity.EditUserKeepsValid | DSTT_Backend/Services/UserService.cs:103-158 | renaming keeps ids unique and below their counters |
| Integrity.DeleteUserKeepsValid | DSTT_Backend/Services/UserService.cs:160-203 | deleting a user keeps ids unique and below their counters |
| Integrity.FollowUserKeepsValid | DSTT_Backend/Services/FollowService.cs:20-84 | following keeps ids unique and below their counters |
| Integrity.UnFollowUserKeepsValid | DSTT_Backend/Services/FollowService.cs:86-148 | unfollowing keeps ids unique and below their counters |
| Integrity.CreateMessageKeepsValid | DSTT_Backend/Services/MessageService.cs:187-221 | posting keeps ids unique and below their counters |
| Integrity.UpdateMessageKeepsValid | DSTT_Backend/Services/MessageService.cs:113-147 | editing a message keeps ids unique and below their counters |
| Integrity.DeleteMessageKeepsValid | DSTT_Backend/Services/MessageService.cs:149-185 | deleting a message keeps ids unique and below their counters |
| Backend.StepKeepsValid | DSTT_Backend/Database/DsttDbContext.cs:29-81 | any one service write keeps the primary keys unique and below their identity counters |
| Backend.RunKeepsValid | DSTT_Backend/Database/DsttDbContext.cs:29-81 | any sequence of service writes keeps the primary keys unique and below their identity counters |
| Backend.CreateAfterRunReadsBack | DSTT_Backend/Repositories/UserRepository.cs:18-47 | after any run from a valid database, a new user's id was unused and reads back as the new user |
| Backend.NoEdgesStaysSound | DSTT_Backend/Database/SeedData.cs:17-24 | from a database without edges, as seeding leaves it, no run creates a self-follow or a duplicate pair |

## Left out

- Controllers, dependency injection, HTTP routing and the DTO validation
  attributes: they sit outside the services.
- `async`/`await` and concurrency. Each call is atomic here, so the race
  between the duplicate check and the insert under concurrent requests is
  not modelled.
- The clock: `DateTime.Now` is the caller's `now` parameter, an integer
  timestamp; its resolution and time zone are not modelled.
- UserRepository.DeleteUser: the texts of the framework's exceptions are
  not modelled. `Database.NoRowAffected` (the row is not stored) and
  `Database.SaveRejected` (an edge or message still refers to the user)
  stand in for them. `FollowRepository.UnFollowUser` and
  `MessageRepository.DeleteMessage` use the same `NoRowAffected`.
- UserService.DeleteUser: does not model a foreign key being set to null on
  the client. The keys are required, so the save is refused; the model
  treats that as the only outcome.
- 32-bit overflow of identity values and ids: integers are unbounded.
- MessageRepository.GetMessagesFromUserIds: a null author list is not
  modelled. Its `Count` is read before the null test, so a null list would
  throw. The service never passes null.
- Results.ToMessageModels: the service leaves `MessageModel.CreatedDate` at
  its default, so the modelled `MessageModel` has no date.
- FollowService.IsFollowing: failure answers carry C#'s default `Result` of
  `false`; the model's `data` is `None` there.
- Database seeding (`SeedData.cs`) itself: it adds three users and no edges, which any starting store of the model may hold.
- FollowRepository.FollowersOf: the join has no `ORDER BY`; listing in
  edge order is the model's choice, and the contract fixes only membership.
- FollowRepository.FollowingOf: as for `FollowersOf`, the order is the
  model's choice.
- UserRepository.FindByName: `FirstOrDefaultAsync` without `ORDER BY` picks
  some row with the name. The model picks the first in table order.
  Duplicate names can occur after a rename (`UserService.EditUserCanDuplicateNames`).
  The contract promises only a row with that name.
- UserRepository.GetUsers: the query has no `ORDER BY`; table order is
  the model's choice.
- MessageRepository.SortNewestFirst: the database's order among messages
  with the same timestamp is unspecified. The model's stable order is one choice, and
  no contract depends on it.

## Findings

| source | as written | input that shows it | evidently intended | confidence | as-written member | corrected member |
|---|---|---|---|---|---|---|
| DSTT_Backend/Services/FollowService.cs:64 | the result of `FollowUser` on the repository is discarded and 200 is returned | two existing distinct users, no edge, and the save fails: the repository reports failure, the service answers success 200 and no edge exists | answer 500 with the repository's message when the save fails | not executed | FollowService.FollowUserAsWrittenMasksFailedSave | FollowService.FollowUser |
| DSTT_Backend/Services/FollowService.cs:129 | the result of `UnFollowUser` on the repository is discarded and 200 is returned | an existing edge and the delete fails: the service answers success 200 and the edge is still there | answer 500 with the repository's message when the delete fails | not executed | FollowService.UnFollowUserAsWrittenMasksFailedSave | FollowService.UnFollowUser |
