# Likes: the like relation and its toggle

A model of the likes feature of a book-and-chapter reading platform. Users
like books and chapters. A like is a row `(userId, entityId)` in one of two
tables, the book-like table and the chapter-like table, and each pair appears
at most once. The feature toggles a like, reports whether a user likes an
entity and how many likes it has (for one id or a batch of ids), and lists
everything a user has liked.

The model has one module per concern:

- `Wrappers` (`wrappers.dfy`): `Option` and `Result`.
- `DecimalIds` (`decimal_ids.dfy`): ids rendered as decimal strings, the
  composite like id `userId_entityId`, and the parsers that invert both.
- `LikesModels` (`likes_models.dfy`): the two request schemas as parse
  functions over JavaScript numbers, and the response shapes as datatypes.
- `LikeTable` (`like_table.dfy`): one like table as a `set<(int, int)>`, with
  counts, the toggle, and the lemmas about them. Its `FindUserRows` loop
  enumerates a user's rows in an order the store does not specify.
- `LikesRepository` (`likes_repository.dfy`): the class `LikesStore`. It holds
  the user, book and chapter existence sets and both like tables. Its reads
  are functions. Its writes are methods framed to the one table they change.
  `Valid()` is the referential integrity the relational store enforces: every
  like row refers to an existing user and an existing entity.
- `LikesService` (`likes_service.dfy`): the toggles, the status delegations,
  the user-likes projections and the four batch queries. It ends with a client
  method, `BookLikeScenario`, that plays a fixed sequence of toggles and
  asserts every result.

A store write (`LikeBook`, `UnlikeBook` and so on) and a toggle state their
whole new state against the old one. `LikeTable` and the reads state what
these states mean: a toggle flips exactly one pair, it moves the entity's
count by exactly one, two toggles restore the table, a liked entity has at
least one like, and under the foreign keys an entity has at most one like per
existing user.

## Model

| member | source | states |
|---|---|---|
| `DecimalIds.NatToString` | src/repos/likesRepository.ts:42-43 | the rendering of a non-negative id is a non-empty string of decimal digits |
| `DecimalIds.IntToString` | src/repos/likesRepository.ts:42-43 | the rendering of any id is non-empty and contains no underscore, so the underscore in a composite id is unambiguous |
| `DecimalIds.ParseNatToString` | src/repos/likesRepository.ts:42-43 | parsing the digits of a non-negative id gives the id back |
| `DecimalIds.ParseIntToString` | src/repos/likesRepository.ts:42-43 | parsing the rendering of any id, negative ones included, gives the id back |
| `DecimalIds.IntToStringInjective` | src/repos/likesRepository.ts:42-43 | two different ids never render to the same string |
| `DecimalIds.CompositeIdRoundTrip` | src/repos/likesRepository.ts:41 | splitting `userId_entityId` at its first underscore and parsing both halves gives back the pair |
| `DecimalIds.CompositeIdInjective` | src/repos/likesRepository.ts:41 | two different like pairs never share a composite id |
| `LikesModels.FieldIssues` | src/models/likesModels.ts:8-9 | the check chain of one id field reports nothing exactly when the value is a positive integer; otherwise its issues name that field and no other |
| `LikesModels.ParseLikeBook` | src/models/likesModels.ts:7-10 | accepts exactly when both `userId` and `bookId` are integers greater than 0 and then returns those ids; on rejection the issues name exactly the fields that failed |
| `LikesModels.ParseLikeChapter` | src/models/likesModels.ts:13-16 | accepts exactly when both `userId` and `chapterId` are integers greater than 0 and then returns those ids; on rejection the issues name exactly the fields that failed |
| `LikesModels.BookRecordOf` | src/repos/likesRepository.ts:40-51 | the record of a book-like row carries the composite id and both ids, each of which parses back to the row's ids |
| `LikesModels.ChapterRecordOf` | src/repos/likesRepository.ts:169-187 | the record of a chapter-like row carries the composite id and both ids, each of which parses back to the row's ids |
| `LikeTable.Toggle` | src/services/likesService.ts:40-50 | after a toggle the pair is liked exactly when it was not before, and every other pair keeps its state |
| `LikeTable.CountInsert` | src/repos/likesRepository.ts:104-112 | inserting an absent pair adds one to its entity's count and leaves every other entity's count unchanged |
| `LikeTable.CountDelete` | src/repos/likesRepository.ts:104-112 | deleting a present pair takes one from its entity's count and leaves every other entity's count unchanged |
| `LikeTable.CountToggle` | src/services/likesService.ts:40-53 | a toggle lowers the entity's count by one if the pair was liked and raises it by one if it was not; other counts do not move |
| `LikeTable.ToggleTwice` | src/services/likesService.ts:40-50 | toggling the same pair twice restores the table |
| `LikeTable.LikedCountPositive` | src/repos/likesRepository.ts:122-132 | an entity that a user likes has at least one like |
| `LikeTable.CountIsLikers` | src/repos/likesRepository.ts:104-112 | an entity's count equals the number of distinct users who like it |
| `LikeTable.CountBounds` | src/repos/likesRepository.ts:104-112 | under the foreign keys an entity has at most one like per existing user, and an entity that does not exist has none |
| `LikeTable.InsertKeepsReferences` | src/repos/likesRepository.ts:21-25 | inserting a pair of existing ids keeps every row's user and entity existing |
| `LikeTable.DeleteKeepsReferences` | src/repos/likesRepository.ts:63-70 | deleting any pair, present or not, keeps every row's user and entity existing |
| `LikeTable.NoRowsWithoutUser` | src/repos/likesRepository.ts:396-406 | under the foreign keys a user that does not exist owns no like rows |
| `LikeTable.FindUserRows` | src/repos/likesRepository.ts:282-316 | returns each of the user's rows exactly once and no other row, in some order |
| `LikesRepository.BookRecordsOfEnumeration` | src/repos/likesRepository.ts:318-330 | mapping an enumeration of rows to book records (`BookRecords`) gives pairwise distinct records, as many as rows, each the record of a row, and every row's record among them |
| `LikesRepository.ChapterRecordsOfEnumeration` | src/repos/likesRepository.ts:332-350 | mapping an enumeration of rows to chapter records (`ChapterRecords`) gives pairwise distinct records, as many as rows, each the record of a row, and every row's record among them |
| `LikesRepository.LikesStore.constructor` | src/repos/likesRepository.ts:10 | a connection to a store holding the given users, books, chapters and like rows, where every row refers to an existing user and entity; the store is valid and holds exactly those |
| `LikesRepository.LikesStore.BookExists` | src/repos/likesRepository.ts:366-376 | membership of the book set; a book that does not exist has no likes |
| `LikesRepository.LikesStore.ChapterExists` | src/repos/likesRepository.ts:381-391 | membership of the chapter set; a chapter that does not exist has no likes |
| `LikesRepository.LikesStore.UserExists` | src/repos/likesRepository.ts:396-406 | membership of the user set; a user that does not exist has no book likes and no chapter likes |
| `LikesRepository.LikesStore.IsBookLikedByUser` | src/repos/likesRepository.ts:83-99 | the pair is in the book table, which happens only for an existing user and an existing book |
| `LikesRepository.LikesStore.IsChapterLikedByUser` | src/repos/likesRepository.ts:219-235 | the pair is in the chapter table, which happens only for an existing user and an existing chapter |
| `LikesRepository.LikesStore.BookLikesCount` | src/repos/likesRepository.ts:104-117 | the number of book-like rows for the book; never more than the number of users, and 0 for a book that does not exist |
| `LikesRepository.LikesStore.ChapterLikesCount` | src/repos/likesRepository.ts:240-253 | the number of chapter-like rows for the chapter; never more than the number of users, and 0 for a chapter that does not exist |
| `LikesRepository.LikesStore.BookLikeStatus` | src/repos/likesRepository.ts:122-137 | the pair of the liked test and the count, read from the same state; a liked book reports at least one like |
| `LikesRepository.LikesStore.ChapterLikeStatus` | src/repos/likesRepository.ts:258-273 | the pair of the liked test and the count, read from the same state; a liked chapter reports at least one like |
| `LikesRepository.LikesStore.LikeBook` | src/repos/likesRepository.ts:19-56 | succeeds exactly when the pair is absent and the user and the book exist, then adds exactly that pair and returns its record; otherwise fails and leaves the table unchanged; the chapter table and the existence sets are never touched |
| `LikesRepository.LikesStore.UnlikeBook` | src/repos/likesRepository.ts:61-78 | removes the pair and returns true when it was present; returns false and leaves the table unchanged when it was absent |
| `LikesRepository.LikesStore.LikeChapter` | src/repos/likesRepository.ts:144-192 | succeeds exactly when the pair is absent and the user and the chapter exist, then adds exactly that pair and returns its record; otherwise fails and leaves the table unchanged |
| `LikesRepository.LikesStore.UnlikeChapter` | src/repos/likesRepository.ts:197-214 | removes the pair and returns true when it was present; returns false and leaves the table unchanged when it was absent |
| `LikesRepository.LikesStore.GetUserLikes` | src/repos/likesRepository.ts:280-361 | one distinct record per book-like row and per chapter-like row of the user and no other, each id being `userId_entityId`; `totalLikes` is the sum of the two list lengths |
| `LikesService.ToggleBookLike` | src/services/likesService.ts:20-69 | a missing user fails with user-not-found, and then a missing book with book-not-found, both leaving the table unchanged; otherwise the table becomes the toggled table, the result reports the new state with the matching message, and the count is the recount after the change: one more or one less than before |
| `LikesService.ToggleChapterLike` | src/services/likesService.ts:88-137 | the same over the chapter table: existence failures change nothing, otherwise the pair flips and the count moves by one in the reported direction |
| `LikesService.ToggleBookLikeTwice` | src/services/likesService.ts:20-69 | two toggles of an existing user and book restore the book table, report opposite states, and end at the original count |
| `LikesService.ToggleChapterLikeTwice` | src/services/likesService.ts:88-137 | two toggles of an existing user and chapter restore the chapter table, report opposite states, and end at the original count |
| `LikesService.GetBookLikeStatus` | src/services/likesService.ts:74-81 | delegation without existence checks: liked exactly when the pair is in the table, the count of the book's rows, at least one when liked |
| `LikesService.GetChapterLikeStatus` | src/services/likesService.ts:142-149 | delegation without existence checks: liked exactly when the pair is in the table, the count of the chapter's rows, at least one when liked |
| `LikesService.GetUserLikes` | src/services/likesService.ts:156-172 | fails with user-not-found exactly when the user does not exist; otherwise lists the user's likes as the store does |
| `LikesService.GetUserLikedBooks` | src/services/likesService.ts:177-185 | fails, with its own error, exactly when the user does not exist; otherwise one distinct record per book-like row of the user |
| `LikesService.GetUserLikedChapters` | src/services/likesService.ts:190-198 | fails, with its own error, exactly when the user does not exist; otherwise one distinct record per chapter-like row of the user |
| `LikesService.GetMultipleBookLikesCount` | src/services/likesService.ts:205-220 | the keys are exactly the distinct input ids (none for an empty list, one per repeated id), each mapped to that book's count |
| `LikesService.GetMultipleChapterLikesCount` | src/services/likesService.ts:225-240 | the keys are exactly the distinct input ids, each mapped to that chapter's count |
| `LikesService.GetMultipleBookLikeStatus` | src/services/likesService.ts:245-260 | the keys are exactly the distinct input ids, each mapped to the user's status for that book |
| `LikesService.GetMultipleChapterLikeStatus` | src/services/likesService.ts:265-280 | the keys are exactly the distinct input ids, each mapped to the user's status for that chapter |

## Left out

- Store failures. The relational store is always reachable and every call on
  it is atomic. So the repository's error paths for lookup and transport
  failures are not modelled: the `*Exists` and `isLiked` reads swallowing
  errors into `false`, and the count and status reads throwing. The service's
  catch blocks that rewrap those errors are not modelled either. The batch
  queries and the status delegations therefore never fail.
- The rejected insert inside a toggle. The source would propagate it. In the
  sequential model it cannot happen: the toggle has just checked that the
  user and the entity exist and that the pair is absent. `ToggleBookLike`
  asserts that the insert succeeds.
- Kinds of rejected insert. A duplicate like and a missing user or entity
  are different causes, but the code throws one error for both
  (src/repos/likesRepository.ts:52-55), and the model follows the code
  (`LikeBookFailed`, `LikeChapterFailed`).
- Concurrency. The batch queries and the status read issue their store calls
  with `Promise.all`. A toggle reads, then writes, then recounts. With
  concurrent writers this allows read skew and the check-then-act race. The
  model runs every call in sequence, so a status is always consistent and a
  batch equals one read per distinct id.
- Timestamps and logging: `createdAt` (the clock at the time of the call)
  and `console.error`.
- Display fields of the like records: the nested book or chapter object with
  its title, cover image, description, genres and the author's username and
  picture. No property depends on them.
- Numeric representation: the `BigInt` conversions and JavaScript's 53-bit
  integer precision. Ids are unbounded integers.
- Request validation outside the id fields: a body that is not an object,
  unknown keys, infinite numbers, and the wording of the issue messages. A
  field that is not a finite number is one `NotANumber` input.
- Creation and deletion of users, books and chapters. This feature never
  changes them, so the store fixes them at construction.
- HTTP wiring: the controller's `parseInt` and response shaping, and the
  route registration.
- The order of a user's liked records. The store returns rows in an order it
  does not specify. `GetUserLikes` promises each row exactly once, in any
  order.
