/** Both services acting on one database: any sequence of calls, and what no sequence can break. */
module Traces {
  import opened Domain
  import Users
  import Posts

  /** The database both services share: the user table and the post table. */
  datatype State = State(users: Users.UserTable, posts: Posts.PostTable)

  /** One service call, with the clock reading it uses where it reads the clock. */
  datatype Op =
    | JoinOp(joinReq: UserJoinReq)
    | LoginOp(userName: string, password: string, nowMs: int)
    | WriteOp(createReq: PostCreateReq, name: string, now: int)
    | GetOp(postId: int)
    | UpdateOp(postId: int, updateReq: PostUpdateReq, name: string, now: int)
    | DeleteOp(postId: int, name: string)

  /** Both tables are valid and every post's owner is a stored user. */
  ghost predicate Inv(s: State) {
    && Users.Valid(s.users)
    && Posts.Valid(s.posts)
    && Posts.OwnersRegistered(s.posts, s.users)
  }

  /** Two rows for the same post: same id, same owner, same creation instant. */
  ghost predicate SameOrigin(p: Post, q: Post) {
    p.id == q.id && p.owner == q.owner && p.createdAt == q.createdAt
  }

  /** Every id the old table had already assigned is, in the new table, either gone or the same post,
      and the new table assigns no id the old one had. */
  ghost predicate PostsDescend(pt: Posts.PostTable, pt2: Posts.PostTable) {
    && pt.nextId <= pt2.nextId
    && forall id :: id < pt.nextId && id in pt2.rows ==> id in pt.rows && SameOrigin(pt.rows[id], pt2.rows[id])
  }

  /** The database when both tables are empty. */
  function Init(): (s: State)
    ensures Inv(s)
  {
    State(Users.Empty(), Posts.Empty())
  }

  /** The state after one call. Lookups, get and login leave both tables as they are. */
  function Step(s: State, op: Op, encoder: PasswordEncoder): (s': State)
    requires Inv(s)
    ensures Inv(s')
    ensures Users.Extends(s.users, s'.users)
    ensures PostsDescend(s.posts, s'.posts)
    ensures (op.LoginOp? || op.GetOp?) ==> s' == s
  {
    match op
    case JoinOp(joinReq) =>
      var o := Users.Join(s.users, joinReq, encoder.encode);
      Posts.OwnersRegisteredMonotone(s.posts, s.users, o.next);
      State(o.next, s.posts)
    case LoginOp(_, _, _) => s
    case WriteOp(createReq, name, now) =>
      State(s.users, Posts.Write(s.posts, s.users, createReq, name, now).next)
    case GetOp(_) => s
    case UpdateOp(postId, updateReq, name, now) =>
      State(s.users, Posts.Update(s.posts, s.users, postId, updateReq, name, now).next)
    case DeleteOp(postId, name) =>
      State(s.users, Posts.Delete(s.posts, s.users, postId, name).next)
  }

  /** The state after a sequence of calls, in order. No sequence breaks the invariant. */
  function Run(s: State, ops: seq<Op>, encoder: PasswordEncoder): (s': State)
    requires Inv(s)
    ensures Inv(s')
    decreases |ops|
  {
    if ops == [] then s else Run(Step(s, ops[0], encoder), ops[1..], encoder)
  }

  /** No sequence of calls removes or alters a stored user. */
  lemma {:induction false} RunExtendsUsers(s: State, ops: seq<Op>, encoder: PasswordEncoder)
    requires Inv(s)
    ensures Users.Extends(s.users, Run(s, ops, encoder).users)
    decreases |ops|
  {
    if ops != [] {
      var s1 := Step(s, ops[0], encoder);
      RunExtendsUsers(s1, ops[1..], encoder);
    }
  }

  /** No sequence of calls reassigns a post's owner or creation instant, and an id that was assigned once
      and then deleted never comes back. */
  lemma {:induction false} RunKeepsPostOrigin(s: State, ops: seq<Op>, encoder: PasswordEncoder)
    requires Inv(s)
    ensures PostsDescend(s.posts, Run(s, ops, encoder).posts)
    decreases |ops|
  {
    if ops != [] {
      var s1 := Step(s, ops[0], encoder);
      RunKeepsPostOrigin(s1, ops[1..], encoder);
    }
  }

  /** The owner of a post, as long as the post exists, is the user that wrote it. */
  lemma OwnerNeverReassigned(s: State, ops: seq<Op>, encoder: PasswordEncoder, postId: int)
    requires Inv(s)
    requires postId in s.posts.rows && postId in Run(s, ops, encoder).posts.rows
    ensures Run(s, ops, encoder).posts.rows[postId].owner == s.posts.rows[postId].owner
  {
    RunKeepsPostOrigin(s, ops, encoder);
  }

  /** Post ids are never reused: an id deleted at some point is absent after any further calls. */
  lemma DeletedPostStaysDeleted(s: State, ops: seq<Op>, encoder: PasswordEncoder, postId: int)
    requires Inv(s)
    requires postId < s.posts.nextId && postId !in s.posts.rows
    ensures postId !in Run(s, ops, encoder).posts.rows
  {
    RunKeepsPostOrigin(s, ops, encoder);
  }

  /** After a successful join of a name, a join with that name after any further calls is refused
      with DUPLICATED_USER_NAME and stores nothing, whatever its password and role. */
  lemma LaterJoinOfSameNameFails(s: State, joinReq: UserJoinReq, encoder: PasswordEncoder,
                                 ops: seq<Op>, again: UserJoinReq)
    requires Inv(s)
    requires Users.Join(s.users, joinReq, encoder.encode).result.Success?
    requires again.userName == joinReq.userName
    ensures var later := Run(Step(s, JoinOp(joinReq), encoder), ops, encoder).users;
            Users.Join(later, again, encoder.encode) == Results.Outcome(later, Results.Failure(Results.DuplicatedUserName))
  {
    var s1 := Step(s, JoinOp(joinReq), encoder);
    RunExtendsUsers(s1, ops, encoder);
    var later := Run(s1, ops, encoder).users;
    assert later.rows[joinReq.userName] in later.rows.Values;
  }
}
