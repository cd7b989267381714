# MutsaSns services in Dafny

A model of the two service classes of the MutsaSns backend, a small multi-user posting service:

- `UserService`: `join` registers a user under a unique `userName` with an encoded password;
  `login` checks the name, then the password, then issues a one-hour token; `getUserByUserName`
  looks a user up.
- `PostService`: `write` stores a post owned by the calling user; `get` reads one; `update` and
  `delete` check, in this order, that the post exists, that the caller exists, and that the caller's
  name is exactly the post owner's name, and only then change the table.

The model has two layers.

- Value level, where the properties are proved. `Results` holds the error kinds and result types.
  `Domain` holds the entities, request bodies and DTOs. `Jwt` holds the token claims. `Users` holds
  the user table and join, login and lookup. `Posts` holds the post table and write, get, update and
  delete. `Traces` runs any sequence of calls of both services over one database and proves what no
  sequence can break.
- Object level. `Repositories` has `UserRepo` and `PostRepo`, each a class with a `map` field and the
  next identity value. `Services` has `UserService` and `PostService`, classes that share the user
  repository. Each service method is proved to produce exactly the table and result of its
  value-level function. `Services.ForeignUpdateIsRefused` is a client that builds both services,
  joins "alice" and "bob", and shows from the method contracts alone that "bob" can neither update
  nor delete "alice"'s post.

Abstractions:

- The password encoder is a pair of functions, `encode` and `matches`. Nothing is assumed about how
  they relate; a lemma that needs "the raw password matches its encoding" takes it as a hypothesis.
- A token is represented by its claims (`userName`, issue instant, expiration instant) and its
  signing key.
- The clock is a parameter: `now` for the post timestamps, `nowMs` for token issue.

Behaviour of the code worth noting:

- `isExpired` holds only when the expiration lies strictly before now (JwtUtil.java:22-24), so a
  token is still live at the instant `issuedAt + window` (`Jwt.CreateToken`).
- `join` returns a `UserDto` carrying the encoded password (UserService.java:40-45).
- `ErrorCode` (ErrorCode.java:10-12) declares only `DUPLICATED_USER_NAME`, `NOT_FOUND` and
  `INVALID_PASSWORD`, but the services also throw `USERNAME_NOT_FOUND`, `POST_NOT_FOUND` and
  `INVALID_PERMISSION`. `Results.ErrorCode` holds the five kinds the services throw. The model does
  not tell the two exception classes, `AppException` and `UserException`, apart.

## Model

| member | source | states |
|---|---|---|
| Users.FindByUserName | src/main/java/com/sns/repository/UserRepo.java:9 | finds a user exactly when some stored user has that name; the user found has that name and is the only stored user with it |
| Users.ValidHasUniqueNames | src/main/java/com/sns/domain/entity/User.java:23-24 | in a valid user table no two stored users share a userName |
| Users.Join | src/main/java/com/sns/service/UserService.java:26-46 | a taken name fails with DUPLICATED_USER_NAME and leaves the table as it was; otherwise exactly one user is added under the request's name, with a fresh id, the request's role and `encode(password)`, every other user is kept, and the DTO describes the new row; the table stays valid either way |
| Users.Login | src/main/java/com/sns/service/UserService.java:48-63 | an unknown name fails with USERNAME_NOT_FOUND before any password check; a password that `matches` rejects fails with INVALID_PASSWORD; it succeeds exactly when both checks pass, and then returns the token for the submitted name, the secret key and a 3,600,000 ms window |
| Users.GetUserByUserName | src/main/java/com/sns/service/UserService.java:65-69 | fails with USERNAME_NOT_FOUND exactly when no stored user has the name; otherwise returns the unique stored user with it |
| Users.JoinThenJoinAgainFails | src/main/java/com/sns/service/UserService.java:32-36 | right after a successful join of a name, a join with that name fails with DUPLICATED_USER_NAME and changes nothing, whatever its password, role or encoder |
| Users.JoinThenGetUser | src/main/java/com/sns/service/UserService.java:39 | after a successful join, the name is found and the stored user has the encoded password and the request's role |
| Users.JoinThenLogin | src/main/java/com/sns/service/UserService.java:51-62 | after a successful join, login with that name returns the one-hour token when `matches(password, encode(joined password))` holds, and INVALID_PASSWORD when it does not |
| Users.LoginTokenLifetime | src/main/java/com/sns/service/UserService.java:24 | a token from a successful login names the submitted user, is signed with the secret key, is issued at the login instant, expires exactly 3,600,000 ms later, and counts as expired exactly at instants after that |
| Users.AliceScenario | src/main/java/com/sns/service/UserService.java:26-63 | with an encoder that accepts "pw1" against its encoding and rejects "wrong": "alice" joins an empty table, login with "pw1" gives a token naming "alice", login with "wrong" gives INVALID_PASSWORD |
| Jwt.CreateToken | src/main/java/com/sns/utils/JwtUtil.java:31-41 | the token's "userName" claim is the given name, it is signed with the given key and issued at the clock reading, and `isExpired` holds of it exactly at instants strictly after issue + window |
| Jwt.IsExpired | src/main/java/com/sns/utils/JwtUtil.java:17-25 | computes whether the token's expiration lies strictly before the given instant |
| Jwt.GetUserName | src/main/java/com/sns/utils/JwtUtil.java:27-29 | computes the token's "userName" claim |
| Domain.PostDtoOf | src/main/java/com/sns/domain/dto/post/PostDto.java:31-38 | computes the post view with the post's id, title and body, the given user name, and no timestamps |
| Domain.UserDtoOf | src/main/java/com/sns/service/UserService.java:40-45 | computes the user view with every field of the saved user, the encoded password included |
| Posts.IsOwner | src/main/java/com/sns/service/PostService.java:72 | computes whether the post owner's userName is exactly the caller's name (the same test stands at line 95) |
| Posts.Write | src/main/java/com/sns/service/PostService.java:27-37 | an unknown caller fails with USERNAME_NOT_FOUND and leaves the table as it was; otherwise exactly one post is added under the next unused id, with the request's title and body, the caller's stored user as owner and both timestamps at the given instant; all other posts are kept and the DTO carries the id, title, body and caller's name |
| Posts.Get | src/main/java/com/sns/service/PostService.java:40-54 | fails with POST_NOT_FOUND exactly when the id is absent; otherwise returns the post's id, title, body, owner's userName and both timestamps |
| Posts.Authorize | src/main/java/com/sns/service/PostService.java:65-74 | the checks of update in their order: POST_NOT_FOUND for a missing post, then USERNAME_NOT_FOUND for an unknown caller, then INVALID_PERMISSION when the owner's name is not exactly the caller's name; it passes exactly when all three hold |
| Posts.Update | src/main/java/com/sns/service/PostService.java:63-83 | fails exactly when a check fails, with that check's error and the table unchanged; on success only that post's title, body and lastModifiedAt change, to the request's values and the given instant; its id, owner and createdAt, every other post and the next id are kept |
| Posts.Delete | src/main/java/com/sns/service/PostService.java:86-102 | fails exactly when a check fails, with that check's error and the table unchanged; on success exactly that post is removed, all others are kept, and the DTO describes the removed post |
| Posts.UpdateSucceedsExactlyForOwner | src/main/java/com/sns/service/PostService.java:72-74 | for an existing post and any registered caller, update and delete succeed exactly when the caller's name equals the owner's name |
| Posts.WriteThenGet | src/main/java/com/sns/service/PostService.java:27-54 | a written post reads back under the returned id with the request's title and body, the caller as owner, and the write instant as both timestamps |
| Posts.UpdateThenGet | src/main/java/com/sns/service/PostService.java:76-80 | an updated post reads back with the new title and body and the update instant, with its owner and createdAt as before |
| Posts.DeleteThenGet | src/main/java/com/sns/service/PostService.java:99 | after a successful delete, reading that id gives POST_NOT_FOUND and every other id reads as before |
| Posts.ForeignCallerIsRefused | src/main/java/com/sns/service/PostService.java:88-97 | on a post owned by "alice", update and delete by the registered "bob" give INVALID_PERMISSION, and by the unregistered "carol" give USERNAME_NOT_FOUND; the table is unchanged in all four cases |
| Posts.OwnersRegisteredMonotone | src/main/java/com/sns/domain/entity/post/Post.java:23-25 | adding users without changing existing ones keeps every post's owner a stored user |
| Traces.Step | src/main/java/com/sns/service/PostService.java:27-102 | any single call of either service keeps both tables valid and every post's owner registered, removes or alters no user, reassigns no post's owner or createdAt, and reuses no id; get and login change nothing |
| Traces.Run | src/main/java/com/sns/service/UserService.java:26-69 | any sequence of calls keeps both tables valid and every post's owner a stored user |
| Traces.RunExtendsUsers | src/main/java/com/sns/service/UserService.java:32-39 | no sequence of calls removes or alters a stored user |
| Traces.RunKeepsPostOrigin | src/main/java/com/sns/domain/entity/post/Post.java:16-25 | after any sequence of calls, an id the table had assigned is either absent or the same post (same owner, same createdAt), and the next id never decreases |
| Traces.OwnerNeverReassigned | src/main/java/com/sns/service/PostService.java:76-80 | a post present before and after any sequence of calls has the same owner |
| Traces.DeletedPostStaysDeleted | src/main/java/com/sns/domain/entity/post/Post.java:17-18 | an id that was assigned and is no longer stored stays absent after any sequence of calls |
| Traces.LaterJoinOfSameNameFails | src/main/java/com/sns/service/UserService.java:32-36 | after a successful join of a name and any further calls, a join with that name fails with DUPLICATED_USER_NAME and stores nothing |
| Repositories.UserRepo.FindByUserName | src/main/java/com/sns/repository/UserRepo.java:9 | the lookup on the repository's rows agrees with `Users.FindByUserName` on its table |
| Repositories.UserRepo.Save | src/main/java/com/sns/service/UserService.java:39 | a new user is stored under its name with the next id, which then advances; the table stays valid |
| Repositories.PostRepo.FindById | src/main/java/com/sns/service/PostService.java:43-44 | finds a post exactly when the id is stored, and then the stored post |
| Repositories.PostRepo.Save | src/main/java/com/sns/service/PostService.java:32 | a new post is stored under the next unused id with both timestamps at the given instant, and the next id advances |
| Repositories.PostRepo.SaveAndFlush | src/main/java/com/sns/service/PostService.java:80 | a stored post's row is replaced by the given post; nothing else changes |
| Repositories.PostRepo.Delete | src/main/java/com/sns/service/PostService.java:99 | the post's row is removed; nothing else changes |
| Services.UserService.Join | src/main/java/com/sns/service/UserService.java:26-46 | the user repository afterwards and the result are those of `Users.Join`; a failure leaves the repository unchanged; existing users are kept |
| Services.UserService.Login | src/main/java/com/sns/service/UserService.java:48-63 | returns what `Users.Login` gives on the repository's table, changing nothing; a success names the submitted user and expires 3,600,000 ms after the login instant |
| Services.UserService.GetUserByUserName | src/main/java/com/sns/service/UserService.java:65-69 | agrees with `Users.GetUserByUserName` on the repository's table |
| Services.PostService.Write | src/main/java/com/sns/service/PostService.java:27-37 | the post repository afterwards and the result are those of `Posts.Write`; every post's owner stays a stored user |
| Services.PostService.Get | src/main/java/com/sns/service/PostService.java:40-54 | agrees with `Posts.Get` on the repository's table |
| Services.PostService.Update | src/main/java/com/sns/service/PostService.java:63-83 | the post repository afterwards and the result are those of `Posts.Update`; a failure leaves the repository unchanged |
| Services.PostService.Delete | src/main/java/com/sns/service/PostService.java:86-102 | the post repository afterwards and the result are those of `Posts.Delete`; a failure leaves the repository unchanged |

## Left out

- `getAllPost` and `PostDto.toDtoList`: paging through Spring's `Page`/`Pageable`, a library type.
- Token signing and parsing: HS256 signing, compaction and signature verification in `extractClaims` belong to the JWT library. A token is its claims and key, and `isExpired`/`getUserName` read the claims without verifying anything.
- Jwt.IsExpired: follows JwtUtil's own comparison only. `isExpired` first parses the token with `parseClaimsJws` (JwtUtil.java:14), and that library call throws on a token that has already expired, so the running code throws where `Jwt.IsExpired` returns true.
- Jwt.CreateToken: keeps millisecond instants. The JWT library stores `iat` and `exp` in whole seconds, so a real token's live window can be shorter by less than a second. `createToken` reads the clock twice, and the model uses one reading for both.
- `JwtFilter`, installed at SecurityConfig.java:39 to read the bearer header, is not modelled: its code is not part of this model. `SecurityConfig`'s route patterns are framework configuration.
- Password encoding: BCrypt is salted, so `encode` gives a different string on each call. The model uses a fixed function.
- Controllers, `Response`/`ErrorResponse` envelopes, HTTP status codes and message strings: presentation only. The enum's unused `NOT_FOUND` is left out.
- Services.PostService.Update: the source sets the fields of the loaded, managed entity in place and then calls `saveAndFlush`. The model replaces the row with the edited value. JPA's persistence context, flushing and transactions are not modelled.
- Users.Login: `login` calls `JwtTokenUtil.createToken` (UserService.java:9, 62). `JwtTokenUtil` is not part of this model; the model takes it to be `JwtUtil.createToken` (JwtUtil.java:31-41). `Users.LoginTokenLifetime` and `Services.UserService.Login` state the token's claims and expiry on that basis.
- Posts.Write: `Post.of(title, body, user)` (PostService.java:32) is not part of this model, since Post.java defines no `of`. The model takes it to set title, body and owner, and leaves the id and the timestamps to the store.
- `BaseEntity` is not part of this model. The model assumes the store stamps `createdAt` and `lastModifiedAt` with the write instant when a post is inserted.
- The user timestamps `deletedAt`, `registeredAt` and `updatedAt` are never set by the services, so they are not modelled.
- Concurrency: each call is atomic in the model. The race between join's existence check and its save is not modelled; the unique column is a precondition of `Repositories.UserRepo.Save`.
- Traces.DeletedPostStaysDeleted: post ids come from `GenerationType.IDENTITY` (Post.java:17), which leaves id generation to the database. The model assumes the database never reissues an identity value; its `nextId` only grows. `Traces.RunKeepsPostOrigin` rests on the same assumption.
- Null fields in request bodies and `Long` overflow of generated ids are not modelled. Ids are unbounded integers.
