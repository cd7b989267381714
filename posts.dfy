/** PostService on values: the post table and its owner-gated mutations. */
module Posts {
  import opened Results
  import opened Domain
  import Users

  /** The post table, keyed by post id, with the next identity value the store will assign. */
  datatype PostTable = PostTable(rows: map<int, Post>, nextId: int)

  /** Table invariant: every row sits under its own id, and ids are positive and below nextId. */
  ghost predicate Valid(pt: PostTable) {
    && 1 <= pt.nextId
    && forall id :: id in pt.rows ==> pt.rows[id].id == id && 1 <= id < pt.nextId
  }

  /** Every post's owner is a stored user, exactly as the user table holds it. */
  ghost predicate OwnersRegistered(pt: PostTable, ut: Users.UserTable) {
    forall id :: id in pt.rows ==>
      pt.rows[id].owner.userName in ut.rows && ut.rows[pt.rows[id].owner.userName] == pt.rows[id].owner
  }

  /** The ownership check of update and delete: exact equality of the owner's name and the caller's. */
  predicate IsOwner(post: Post, name: string) {
    post.owner.userName == name
  }

  /** The empty table a fresh database starts with. */
  function Empty(): (pt: PostTable)
    ensures Valid(pt) && pt.rows == map[]
  {
    PostTable(map[], 1)
  }

  /** next differs from pt at most in the row under postId, and assigns no new id. */
  ghost predicate OthersUnchanged(pt: PostTable, next: PostTable, postId: int) {
    && next.nextId == pt.nextId
    && (forall id :: id in pt.rows && id != postId ==> id in next.rows && next.rows[id] == pt.rows[id])
    && (forall id :: id in next.rows && id != postId ==> id in pt.rows)
  }

  /** write: an unknown caller gets USERNAME_NOT_FOUND and nothing is stored; otherwise one new post,
      owned by the caller's stored user, is added under the next id. */
  function Write(pt: PostTable, ut: Users.UserTable, createReq: PostCreateReq, name: string, now: int)
    : (o: Outcome<PostTable, PostDto>)
    requires Valid(pt) && Users.Valid(ut)
    ensures Valid(o.next)
    ensures OwnersRegistered(pt, ut) ==> OwnersRegistered(o.next, ut)
    ensures o.result.Failure? <==> Users.FindByUserName(ut, name).None?
    ensures o.result.Failure? ==> o.result.error == UserNameNotFound && o.next == pt
    ensures o.result.Success? ==>
              var user := Users.FindByUserName(ut, name).value;
              var post := Post(pt.nextId, createReq.title, createReq.body, user, now, now);
              && pt.nextId !in pt.rows
              && o.next.rows.Keys == pt.rows.Keys + {pt.nextId}
              && o.next.rows[pt.nextId] == post
              && (forall id :: id in pt.rows ==> o.next.rows[id] == pt.rows[id])
              && o.next.nextId == pt.nextId + 1
              && o.result.value == PostDto(pt.nextId, createReq.title, createReq.body, name, None, None)
  {
    match Users.FindByUserName(ut, name)
    case None => Outcome(pt, Failure(UserNameNotFound))
    case Some(user) =>
      var saved := Post(pt.nextId, createReq.title, createReq.body, user, now, now);
      Outcome(PostTable(pt.rows[pt.nextId := saved], pt.nextId + 1), Success(PostDtoOf(saved, user.userName)))
  }

  /** get: POST_NOT_FOUND for a missing id; otherwise the post's fields, its owner's name and both timestamps. */
  function Get(pt: PostTable, postId: int): (r: Result<PostDto>)
    ensures r.Failure? <==> postId !in pt.rows
    ensures r.Failure? ==> r.error == PostNotFound
    ensures r.Success? ==>
              var post := pt.rows[postId];
              r.value == PostDto(post.id, post.title, post.body, post.owner.userName,
                                 Some(post.createdAt), Some(post.lastModifiedAt))
  {
    if postId !in pt.rows then Failure(PostNotFound)
    else
      var post := pt.rows[postId];
      Success(PostDto(post.id, post.title, post.body, post.owner.userName,
                      Some(post.createdAt), Some(post.lastModifiedAt)))
  }

  /** The checks update and delete share, in their order: the post exists, then the caller exists,
      then the caller owns the post. Success means all three passed. */
  function Authorize(pt: PostTable, ut: Users.UserTable, postId: int, name: string): (r: Result<Post>)
    requires Users.Valid(ut)
    ensures postId !in pt.rows ==> r == Failure(PostNotFound)
    ensures postId in pt.rows && Users.FindByUserName(ut, name).None? ==> r == Failure(UserNameNotFound)
    ensures (postId in pt.rows && Users.FindByUserName(ut, name).Some? && !IsOwner(pt.rows[postId], name))
              ==> r == Failure(InvalidPermission)
    ensures r.Success? <==>
              postId in pt.rows && Users.FindByUserName(ut, name).Some? && IsOwner(pt.rows[postId], name)
    ensures r.Success? ==> r.value == pt.rows[postId]
  {
    if postId !in pt.rows then Failure(PostNotFound)
    else if Users.FindByUserName(ut, name).None? then Failure(UserNameNotFound)
    else if !IsOwner(pt.rows[postId], name) then Failure(InvalidPermission)
    else Success(pt.rows[postId])
  }

  /** update: any failed check leaves the table as it was; on success only the post's title, body and
      lastModifiedAt change, to the request's values and the given instant. */
  function Update(pt: PostTable, ut: Users.UserTable, postId: int, updateReq: PostUpdateReq, name: string, now: int)
    : (o: Outcome<PostTable, PostDto>)
    requires Users.Valid(ut)
    ensures Valid(pt) ==> Valid(o.next)
    ensures OwnersRegistered(pt, ut) ==> OwnersRegistered(o.next, ut)
    ensures o.result.Success? <==> Authorize(pt, ut, postId, name).Success?
    ensures o.result.Failure? ==>
              o.next == pt && o.result.error == Authorize(pt, ut, postId, name).error
    ensures o.result.Success? ==>
              var before := pt.rows[postId];
              && postId in o.next.rows
              && OthersUnchanged(pt, o.next, postId)
              && o.next.rows[postId] == Post(before.id, updateReq.title, updateReq.body, before.owner, before.createdAt, now)
              && o.result.value == PostDto(before.id, updateReq.title, updateReq.body, name, None, None)
  {
    match Authorize(pt, ut, postId, name)
    case Failure(e) => Outcome(pt, Failure(e))
    case Success(post) =>
      var user := Users.FindByUserName(ut, name).value;
      var edited := post.(title := updateReq.title, body := updateReq.body, lastModifiedAt := now);
      Outcome(PostTable(pt.rows[postId := edited], pt.nextId), Success(PostDtoOf(edited, user.userName)))
  }

  /** delete: any failed check leaves the table as it was; on success exactly the post under postId is
      removed and the result describes it. */
  function Delete(pt: PostTable, ut: Users.UserTable, postId: int, name: string): (o: Outcome<PostTable, PostDto>)
    requires Users.Valid(ut)
    ensures Valid(pt) ==> Valid(o.next)
    ensures OwnersRegistered(pt, ut) ==> OwnersRegistered(o.next, ut)
    ensures o.result.Success? <==> Authorize(pt, ut, postId, name).Success?
    ensures o.result.Failure? ==>
              o.next == pt && o.result.error == Authorize(pt, ut, postId, name).error
    ensures o.result.Success? ==>
              && postId !in o.next.rows
              && o.next.rows.Keys == pt.rows.Keys - {postId}
              && OthersUnchanged(pt, o.next, postId)
              && o.result.value == PostDtoOf(pt.rows[postId], name)
  {
    match Authorize(pt, ut, postId, name)
    case Failure(e) => Outcome(pt, Failure(e))
    case Success(post) =>
      var user := Users.FindByUserName(ut, name).value;
      Outcome(PostTable(pt.rows - {postId}, pt.nextId), Success(PostDtoOf(post, user.userName)))
  }

  /** For a registered caller, update and delete of an existing post succeed exactly when the caller's name
      is the owner's name. */
  lemma UpdateSucceedsExactlyForOwner(pt: PostTable, ut: Users.UserTable, postId: int,
                                      updateReq: PostUpdateReq, caller: string, now: int)
    requires Users.Valid(ut)
    requires postId in pt.rows && caller in ut.rows
    ensures Update(pt, ut, postId, updateReq, caller, now).result.Success? <==> pt.rows[postId].owner.userName == caller
    ensures Delete(pt, ut, postId, caller).result.Success? <==> pt.rows[postId].owner.userName == caller
  {
  }

  /** A written post reads back with the request's title and body, the caller as owner, and the write instant. */
  lemma WriteThenGet(pt: PostTable, ut: Users.UserTable, createReq: PostCreateReq, name: string, now: int)
    requires Valid(pt) && Users.Valid(ut)
    requires Write(pt, ut, createReq, name, now).result.Success?
    ensures var o := Write(pt, ut, createReq, name, now);
            Get(o.next, o.result.value.postId)
              == Success(PostDto(o.result.value.postId, createReq.title, createReq.body, name, Some(now), Some(now)))
  {
  }

  /** An updated post reads back with the new title and body and the update instant; id, owner and
      creation instant are as before. */
  lemma UpdateThenGet(pt: PostTable, ut: Users.UserTable, postId: int, updateReq: PostUpdateReq, name: string, now: int)
    requires Valid(pt) && Users.Valid(ut)
    requires Update(pt, ut, postId, updateReq, name, now).result.Success?
    ensures Get(Update(pt, ut, postId, updateReq, name, now).next, postId)
              == Success(PostDto(postId, updateReq.title, updateReq.body, pt.rows[postId].owner.userName,
                                 Some(pt.rows[postId].createdAt), Some(now)))
  {
  }

  /** A deleted post is gone: reading it afterwards gets POST_NOT_FOUND, and every other post reads as before. */
  lemma DeleteThenGet(pt: PostTable, ut: Users.UserTable, postId: int, name: string, other: int)
    requires Users.Valid(ut)
    requires Delete(pt, ut, postId, name).result.Success?
    ensures Get(Delete(pt, ut, postId, name).next, postId) == Failure(PostNotFound)
    ensures other != postId ==> Get(Delete(pt, ut, postId, name).next, other) == Get(pt, other)
  {
  }

  /** A post owned by "alice": an update or delete by the registered "bob" is refused with INVALID_PERMISSION
      and the table stays as it was; an unregistered caller gets USERNAME_NOT_FOUND instead. */
  lemma ForeignCallerIsRefused(pt: PostTable, ut: Users.UserTable, postId: int, updateReq: PostUpdateReq, now: int)
    requires Users.Valid(ut)
    requires postId in pt.rows && pt.rows[postId].owner.userName == "alice"
    requires "bob" in ut.rows && "carol" !in ut.rows
    ensures Update(pt, ut, postId, updateReq, "bob", now) == Outcome(pt, Failure(InvalidPermission))
    ensures Delete(pt, ut, postId, "bob") == Outcome(pt, Failure(InvalidPermission))
    ensures Update(pt, ut, postId, updateReq, "carol", now) == Outcome(pt, Failure(UserNameNotFound))
    ensures Delete(pt, ut, postId, "carol") == Outcome(pt, Failure(UserNameNotFound))
  {
  }

  /** Growing the user table without changing any row keeps every post's owner registered. */
  lemma OwnersRegisteredMonotone(pt: PostTable, ut: Users.UserTable, ut2: Users.UserTable)
    requires OwnersRegistered(pt, ut) && Users.Extends(ut, ut2)
    ensures OwnersRegistered(pt, ut2)
  {
  }
}
