/** The two repositories as mutable tables: the operations the services call on them. */
module Repositories {
  import opened Results
  import opened Domain
  import Users
  import Posts

  /** UserRepo: rows keyed by the unique userName column, and the next identity value. */
  class UserRepo {
    var rows: map<string, User>
    var nextId: int

    ghost function Table(): Users.UserTable
      reads this
    {
      Users.UserTable(rows, nextId)
    }

    ghost predicate Valid()
      reads this
    {
      Users.Valid(Table())
    }

    constructor ()
      ensures Valid() && rows == map[]
    {
      rows := map[];
      nextId := 1;
    }

    /** findByUserName. */
    function FindByUserName(userName: string): (r: Option<User>)
      reads this
      requires Valid()
      ensures r == Users.FindByUserName(Table(), userName)
    {
      if userName in rows then Some(rows[userName]) else None
    }

    /** save of a new user: the store assigns the next id. The unique column refuses a taken name. */
    method Save(userName: string, password: string, userRole: UserRole) returns (saved: User)
      requires Valid() && userName !in rows
      modifies this
      ensures Valid()
      ensures saved == User(old(nextId), userName, password, userRole)
      ensures rows == old(rows)[userName := saved] && nextId == old(nextId) + 1
    {
      saved := User(nextId, userName, password, userRole);
      rows := rows[userName := saved];
      nextId := nextId + 1;
    }
  }

  /** PostRepo: rows keyed by post id, and the next identity value. */
  class PostRepo {
    var rows: map<int, Post>
    var nextId: int

    ghost function Table(): Posts.PostTable
      reads this
    {
      Posts.PostTable(rows, nextId)
    }

    ghost predicate Valid()
      reads this
    {
      Posts.Valid(Table())
    }

    constructor ()
      ensures Valid() && rows == map[]
    {
      rows := map[];
      nextId := 1;
    }

    /** findById. */
    function FindById(postId: int): (r: Option<Post>)
      reads this
      ensures r.Some? <==> postId in rows
      ensures r.Some? ==> r.value == rows[postId]
    {
      if postId in rows then Some(rows[postId]) else None
    }

    /** save of a new post: the store assigns the next id and stamps both timestamps with the given instant. */
    method Save(title: string, body: string, owner: User, now: int) returns (saved: Post)
      requires Valid()
      modifies this
      ensures Valid()
      ensures saved == Post(old(nextId), title, body, owner, now, now)
      ensures old(nextId) !in old(rows)
      ensures rows == old(rows)[saved.id := saved] && nextId == old(nextId) + 1
    {
      saved := Post(nextId, title, body, owner, now, now);
      rows := rows[nextId := saved];
      nextId := nextId + 1;
    }

    /** saveAndFlush of a post already stored: its row is replaced. */
    method SaveAndFlush(post: Post) returns (saved: Post)
      requires Valid() && post.id in rows
      modifies this
      ensures Valid()
      ensures saved == post
      ensures rows == old(rows)[post.id := post] && nextId == old(nextId)
    {
      rows := rows[post.id := post];
      saved := post;
    }

    /** delete of a stored post: its row is removed. */
    method Delete(post: Post)
      requires Valid()
      modifies this
      ensures Valid()
      ensures rows == old(rows) - {post.id} && nextId == old(nextId)
    {
      rows := rows - {post.id};
    }
  }
}
