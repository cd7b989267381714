/** UserService and PostService as objects over the shared repositories. */
module Services {
  import opened Results
  import opened Domain
  import Jwt
  import Users
  import Posts
  import opened Repositories

  /** Registration, login and lookup of users. */
  class UserService {
    const userRepo: UserRepo
    const encoder: PasswordEncoder
    const secretKey: string

    ghost predicate Valid()
      reads userRepo
    {
      userRepo.Valid()
    }

    constructor (userRepo: UserRepo, encoder: PasswordEncoder, secretKey: string)
      ensures this.userRepo == userRepo && this.encoder == encoder && this.secretKey == secretKey
    {
      this.userRepo := userRepo;
      this.encoder := encoder;
      this.secretKey := secretKey;
    }

    /** join: refuses a taken name; otherwise stores the user with the encoded password. */
    method Join(userJoinReq: UserJoinReq) returns (r: Result<UserDto>)
      requires Valid()
      modifies userRepo
      ensures Valid()
      ensures Outcome(userRepo.Table(), r) == Users.Join(old(userRepo.Table()), userJoinReq, encoder.encode)
      ensures r.Failure? ==> r.error == DuplicatedUserName && unchanged(userRepo)
      ensures Users.Extends(old(userRepo.Table()), userRepo.Table())
    {
      var existing := userRepo.FindByUserName(userJoinReq.userName);
      if existing.Some? {
        return Failure(DuplicatedUserName);
      }
      var savedUser := userRepo.Save(userJoinReq.userName, encoder.encode(userJoinReq.password), userJoinReq.userRole);
      r := Success(UserDtoOf(savedUser));
    }

    /** login: USERNAME_NOT_FOUND, then INVALID_PASSWORD, then a one-hour token for userName.
        It changes nothing. */
    method Login(userName: string, password: string, nowMs: int) returns (r: Result<Jwt.Token>)
      requires Valid()
      ensures r == Users.Login(userRepo.Table(), userName, password, encoder.matches, secretKey, nowMs)
      ensures r.Success? ==> Jwt.GetUserName(r.value) == userName && r.value.expirationMs == nowMs + 3600000
    {
      var user := userRepo.FindByUserName(userName);
      if user.None? {
        return Failure(UserNameNotFound);
      }
      if !encoder.matches(password, user.value.password) {
        return Failure(InvalidPassword);
      }
      r := Success(Jwt.CreateToken(userName, secretKey, Users.ExpiredTimeMs, nowMs));
    }

    /** getUserByUserName. */
    function GetUserByUserName(userName: string): (r: Result<User>)
      reads userRepo
      requires Valid()
      ensures r == Users.GetUserByUserName(userRepo.Table(), userName)
    {
      match userRepo.FindByUserName(userName)
      case None => Failure(UserNameNotFound)
      case Some(user) => Success(user)
    }
  }

  /** Writing, reading, updating and deleting posts; update and delete only by the post's owner. */
  class PostService {
    const userRepo: UserRepo
    const postRepo: PostRepo

    ghost predicate Valid()
      reads userRepo, postRepo
    {
      && userRepo.Valid()
      && postRepo.Valid()
      && Posts.OwnersRegistered(postRepo.Table(), userRepo.Table())
    }

    constructor (userRepo: UserRepo, postRepo: PostRepo)
      ensures this.userRepo == userRepo && this.postRepo == postRepo
    {
      this.userRepo := userRepo;
      this.postRepo := postRepo;
    }

    /** write. */
    method Write(createReq: PostCreateReq, name: string, now: int) returns (r: Result<PostDto>)
      requires Valid()
      modifies postRepo
      ensures Valid()
      ensures Outcome(postRepo.Table(), r) == Posts.Write(old(postRepo.Table()), userRepo.Table(), createReq, name, now)
    {
      var user := userRepo.FindByUserName(name);
      if user.None? {
        return Failure(UserNameNotFound);
      }
      var savedPost := postRepo.Save(createReq.title, createReq.body, user.value, now);
      r := Success(PostDtoOf(savedPost, user.value.userName));
    }

    /** get. */
    function Get(postId: int): (r: Result<PostDto>)
      reads postRepo
      ensures r == Posts.Get(postRepo.Table(), postId)
    {
      match postRepo.FindById(postId)
      case None => Failure(PostNotFound)
      case Some(post) =>
        Success(PostDto(post.id, post.title, post.body, post.owner.userName,
                        Some(post.createdAt), Some(post.lastModifiedAt)))
    }

    /** update: the three checks in order, then the loaded post's title, body and lastModifiedAt are set
        and the post is saved. */
    method Update(postId: int, updateReq: PostUpdateReq, name: string, now: int) returns (r: Result<PostDto>)
      requires Valid()
      modifies postRepo
      ensures Valid()
      ensures Outcome(postRepo.Table(), r)
                == Posts.Update(old(postRepo.Table()), userRepo.Table(), postId, updateReq, name, now)
      ensures r.Failure? ==> unchanged(postRepo)
    {
      var post := postRepo.FindById(postId);
      if post.None? {
        return Failure(PostNotFound);
      }
      var user := userRepo.FindByUserName(name);
      if user.None? {
        return Failure(UserNameNotFound);
      }
      if post.value.owner.userName != name {
        return Failure(InvalidPermission);
      }
      var edited := post.value.(title := updateReq.title, body := updateReq.body, lastModifiedAt := now);
      var savedPost := postRepo.SaveAndFlush(edited);
      r := Success(PostDtoOf(savedPost, user.value.userName));
    }

    /** delete: the three checks in order, then the post is removed. */
    method Delete(postId: int, name: string) returns (r: Result<PostDto>)
      requires Valid()
      modifies postRepo
      ensures Valid()
      ensures Outcome(postRepo.Table(), r) == Posts.Delete(old(postRepo.Table()), userRepo.Table(), postId, name)
      ensures r.Failure? ==> unchanged(postRepo)
    {
      var post := postRepo.FindById(postId);
      if post.None? {
        return Failure(PostNotFound);
      }
      var user := userRepo.FindByUserName(name);
      if user.None? {
        return Failure(UserNameNotFound);
      }
      if post.value.owner.userName != name {
        return Failure(InvalidPermission);
      }
      postRepo.Delete(post.value);
      r := Success(PostDtoOf(post.value, user.value.userName));
    }
  }

  /** A client of both services: "alice" and "bob" join, "alice" writes a post, "bob" may neither update
      nor delete it, and the post reads back as "alice" wrote it; then "alice" updates it. */
  method ForeignUpdateIsRefused(encoder: PasswordEncoder, secretKey: string, now: int, later: int)
  {
    var userRepo := new UserRepo();
    var postRepo := new PostRepo();
    var users := new UserService(userRepo, encoder, secretKey);
    var posts := new PostService(userRepo, postRepo);

    var alice := users.Join(UserJoinReq("alice", "pw1", UserRole("USER")));
    var bob := users.Join(UserJoinReq("bob", "pw2", UserRole("USER")));
    assert alice.Success? && bob.Success?;

    var written := posts.Write(PostCreateReq("title", "body"), "alice", now);
    assert written.Success?;
    var id := written.value.postId;

    var refused := posts.Update(id, PostUpdateReq("hacked", "hacked"), "bob", later);
    assert refused == Failure(InvalidPermission);
    var notDeleted := posts.Delete(id, "bob");
    assert notDeleted == Failure(InvalidPermission);
    assert posts.Get(id) == Success(PostDto(id, "title", "body", "alice", Some(now), Some(now)));

    var edited := posts.Update(id, PostUpdateReq("title2", "body2"), "alice", later);
    assert edited.Success?;
    assert posts.Get(id) == Success(PostDto(id, "title2", "body2", "alice", Some(now), Some(later)));
  }
}
