# mflix data-access layer, modelled in Dafny

This project models the persistence core of the mflix movie-catalog
application: the two data-access objects `CommentDao` and `UserDao`, which
read and write the `comments`, `users` and `sessions` collections of a
MongoDB database.

The model holds each collection as an immutable finite map:

- `comments` is keyed by `_id`;
- `users` is keyed by `email`;
- `sessions` is keyed by `user_id`.

Every DAO method is a pure function from the old collections to the new
collections plus either the method's return value or the exception it throws
(`Result`). `None` stands for a null comment id, null preferences and a lookup that finds nothing. The `mostActiveCommenters` report is a
three-stage pipeline of methods over the comment map: group, sort and limit.

What is modelled is the set of decisions the DAOs themselves make:

- the filter each write uses;
- how the driver's counters become booleans:
  - matched count for `updateComment`;
  - deleted count for `deleteComment`;
  - modified count for `updateUserPreferences`;
  - `wasAcknowledged` for the session and user deletes;
- the null guards that throw `IncorrectDaoOperation`;
- the upsert that keeps one session per user;
- deleting sessions before the user;
- the group, count, sort-descending, limit-20 report.

Files:

- `common.dfy` (module `Common`): `Option`, `Result`, the error datatype,
  the abstract `ObjectId`, and the driver's update and delete counters.
- `comment_dao.dfy` (module `CommentDao`): comments and the report.
- `user_dao.dfy` (module `UserDao`): users and sessions.

Points where the model takes a position on the Java code:

- `addComment` checks `getId()` for null but re-reads by `getOid()`. The
  model has a single identifier, `Comment.id`, and `None` stands for a
  missing id.
- `updateComment` passes its two `set` updates to `Filters.and`, not to
  `Updates.combine`. The model follows the evident intent: it sets the text
  and stamps the date.
- `addComment` does not catch the insert's write error. A duplicate `_id`
  therefore reaches the caller as a raw driver error (`DuplicateKeyWrite`),
  not as `IncorrectDaoOperation`.
- `addUser` converts only a duplicate-key error to `IncorrectDaoOperation`.
  Any other write error is swallowed and the method returns true with nothing
  stored. The method's Javadoc says "True if successful, throw
  IncorrectDaoOperation otherwise"; the model follows the code. The input
  `otherWriteError` chooses that path.
- `deleteUser` passes the email as the sessions' `user_id`. This is kept as
  written.
- `updateUserPreferences` returns false both when no user matched and when
  the preferences were already equal. The model keeps that single boolean.
  The underlying `UpdateResult` (`SetPreferences`) still tells the two cases
  apart.
- Acknowledgement of the two deletes is an input. An unacknowledged delete is
  still applied; only the returned flag differs.

## Model

| member | source | states |
|---|---|---|
| Common.DeleteOneByKey | mflix/src/main/java/mflix/api/daos/UserDao.java:112 | the driver's `deleteOne` on the field a collection is keyed by (here `user_id`; the same shape as `deleteOne(eq("email", email))` at line 128): the key is absent afterwards, every other document is kept, at most one document is deleted, exactly when the key was present, and the acknowledgement flag is the one given |
| CommentDao.GetComment | mflix/src/main/java/mflix/api/daos/CommentDao.java:65-67 | finds a comment exactly when one is stored under the id, and the comment found carries that id |
| CommentDao.AddComment | mflix/src/main/java/mflix/api/daos/CommentDao.java:80-85 | a missing id throws `IncorrectDaoOperation` with the Java message; an id already present fails with the uncaught duplicate-key write error; every failure leaves the store unchanged; a fresh id adds exactly that key holding exactly the given comment, leaves every other comment alone, and the re-read returns the inserted comment |
| CommentDao.UpdateOwned | mflix/src/main/java/mflix/api/daos/CommentDao.java:101-103 | the update matches at most one document, exactly when id and owner email both match; it counts as modified only when the text or date differ; with nothing modified the store is unchanged; otherwise only the matched comment's text and date change, to the new text and `now`, and every other comment and key is kept |
| CommentDao.UpdateComment | mflix/src/main/java/mflix/api/daos/CommentDao.java:100-114 | returns true iff a comment with that id and that owner exists; on false the store is unchanged; on true only that comment changes, its text becomes the new text and its date `now`, with id, owner and movie kept |
| CommentDao.DeleteOwned | mflix/src/main/java/mflix/api/daos/CommentDao.java:124 | deletes at most one document, exactly when id and owner email both match, and only that one |
| CommentDao.DeleteComment | mflix/src/main/java/mflix/api/daos/CommentDao.java:123-126 | returns true iff a comment with that id and owner existed; then only it is removed; otherwise, for example with a wrong email, the store is unchanged |
| CommentDao.AddThenGet | mflix/src/main/java/mflix/api/daos/CommentDao.java:80-85 | after adding a comment under a fresh id, `getComment` of that id returns that comment |
| CommentDao.UpdateWithSameText | mflix/src/main/java/mflix/api/daos/CommentDao.java:104-108 | updating one's own comment with its current text still returns true; with the same date too, nothing is modified and the store is unchanged |
| CommentDao.UpdateThenGet | mflix/src/main/java/mflix/api/daos/CommentDao.java:101-103 | after a successful update, a read sees the new text and date and the same owner |
| CommentDao.DeleteTwice | mflix/src/main/java/mflix/api/daos/CommentDao.java:123-124 | after a delete, repeating it returns false and changes nothing |
| CommentDao.AddCommentCountsOnce | mflix/src/main/java/mflix/api/daos/CommentDao.java:82-84 | a successful add raises the owner's comment count by one and leaves every other email's count as it was |
| CommentDao.DeleteCommentCountsOnce | mflix/src/main/java/mflix/api/daos/CommentDao.java:123-124 | a successful delete lowers the owner's comment count by one and leaves every other email's count as it was |
| CommentDao.UpdateKeepsCounts | mflix/src/main/java/mflix/api/daos/CommentDao.java:101-103 | an update never changes any email's comment count, because it never changes a comment's owner |
| CommentDao.GroupByEmail | mflix/src/main/java/mflix/api/daos/CommentDao.java:140 | one group per email that owns a comment, and each group's count equals the number of comments that email owns |
| CommentDao.SortByCountDescending | mflix/src/main/java/mflix/api/daos/CommentDao.java:140-141 | lists every group exactly once, with its count, in non-increasing count order |
| CommentDao.LimitKeepsTop | mflix/src/main/java/mflix/api/daos/CommentDao.java:142 | the limited prefix of a sorted report stays sorted, distinct and correct, and no email it drops has a larger count than any email it keeps |
| CommentDao.MostActiveCommenters | mflix/src/main/java/mflix/api/daos/CommentDao.java:135-144 | at most 20 rows; distinct emails; each count equals that email's number of comments; counts non-increasing; exactly min(20, number of commenters) rows, one per commenter when there are at most 20; no omitted commenter has more comments than any listed one |
| UserDao.GetUser | mflix/src/main/java/mflix/api/daos/UserDao.java:97-99 | finds a user exactly when one is stored under the email, and the user found has that email |
| UserDao.GetUserSession | mflix/src/main/java/mflix/api/daos/UserDao.java:107-109 | finds a session exactly when one is stored for the user id, and the session found has that user id |
| UserDao.AddUser | mflix/src/main/java/mflix/api/daos/UserDao.java:60-72 | an email already present throws `IncorrectDaoOperation`, and this is the only exception; the existing user stays the one user under that email; every non-throwing path returns true, including a swallowed non-duplicate write error, which stores nothing; a fresh email always returns true; otherwise exactly the new user is added; sessions never change |
| UserDao.CreateUserSession | mflix/src/main/java/mflix/api/daos/UserDao.java:81-89 | always returns true; afterwards the user's single session holds the new token; other sessions and all users are unchanged |
| UserDao.DeleteUserSessions | mflix/src/main/java/mflix/api/daos/UserDao.java:111-117 | returns the acknowledgement flag, so true even when no session existed; no session for the user id remains; other sessions and users are unchanged |
| UserDao.DeleteUser | mflix/src/main/java/mflix/api/daos/UserDao.java:125-137 | sessions keyed by the email are deleted first; if that delete is not acknowledged the result is false and users are untouched; otherwise the user is gone and the result is the user delete's acknowledgement, true even if nothing existed; nothing else changes |
| UserDao.SetPreferences | mflix/src/main/java/mflix/api/daos/UserDao.java:149 | the update matches exactly when a user has the email; it counts as modified only when the stored preferences differ from the new value; with nothing modified the state is unchanged; otherwise only the matched user's preferences are replaced, and every other user, every key and all sessions are kept |
| UserDao.UpdateUserPreferences | mflix/src/main/java/mflix/api/daos/UserDao.java:147-158 | null preferences throw `IncorrectDaoOperation` and change nothing; otherwise the result is true iff the user exists and its preferences differ; a true result replaces that user's preferences wholesale and keeps name and password hash; false changes nothing; other users and all sessions are unchanged |
| UserDao.AddUserThenGet | mflix/src/main/java/mflix/api/daos/UserDao.java:60-68 | a user added under a new email is returned by `getUser` of that email |
| UserDao.AddUserTwice | mflix/src/main/java/mflix/api/daos/UserDao.java:63-65 | a second registration with the same email throws, and `getUser` still returns the first user |
| UserDao.CreateSessionTwice | mflix/src/main/java/mflix/api/daos/UserDao.java:82-85 | creating sessions with tokens a and then b for one user leaves only token b |
| UserDao.DeleteUserWithoutSession | mflix/src/main/java/mflix/api/daos/UserDao.java:125-136 | deleting a user that has no session returns true when both deletes are acknowledged, removes the user and leaves the sessions as they were |
| UserDao.UpdatePreferencesThenGet | mflix/src/main/java/mflix/api/daos/UserDao.java:147-157 | after an update the user reads back exactly the new preferences; old keys are not merged in |
| UserDao.UpdatePreferencesTwice | mflix/src/main/java/mflix/api/daos/UserDao.java:149-153 | repeating an identical preference update returns false and leaves the state unchanged |

## Left out

- Connection set-up in `mflix/config/MongoDBConfiguration.java` is left out. This covers the client, the connection string, and the majority write concern with journal and a 2500 ms timeout. It is configuration with no decisions in it.
- Durability, read and write concerns, timeouts and replication rollback are driver and server behaviour. A write-concern timeout on `addComment`, `updateComment` or `addUser` is not modelled. Acknowledgement is an input only where the Java code reads it: the session and user deletes.
- Concurrency between clients is not modelled. Each DAO call is one atomic transition.
- The driver's unacknowledged `DeleteResult` is not modelled. In the Java driver, `getDeletedCount()` on an unacknowledged result throws, and `deleteUserSessions` calls it before `wasAcknowledged()`. The model instead lets an unacknowledged delete return false, which is what the code's control flow expresses.
- Raw driver exceptions other than a duplicate `_id` on `addComment` are not modelled. Examples are network loss and a duplicate key on the session upsert.
- Parsing of id strings into `ObjectId` is not modelled, including the exception a malformed string raises. Ids are abstract values compared by equality.
- The wall clock (`new Date()`) in `updateComment` becomes the parameter `now`.
- The order among commenters with equal counts is unspecified on the server. The report is specified by predicates, not by one fixed order.
- Preference values are strings. Equality of preference documents is map equality, so BSON key order is not modelled.
- Codec registries, Spring wiring, the `AbstractMFlixDao` base class and logging are not modelled. Each logging call is marked by a comment at the point where it occurs.
- Null string arguments (a null `email` or `text`) and stored documents with missing fields, other than a user's `preferences`, are not modelled. In MongoDB, `eq("email", null)` in `updateComment` and `deleteComment` would match comments that have no email.
- A unique index on `users.email` is assumed. The Java code never creates one. Without it the insert in `addUser` succeeds for a repeated email, and the duplicate-key branch never fires. Keying `users` by email builds this assumption into the model.
