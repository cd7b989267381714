/** Entities, request bodies and DTOs the services read and produce. */
module Domain {
  import opened Results

  /** The role a user registers with; it is copied verbatim and never inspected. */
  datatype UserRole = UserRole(name: string)

  /** A stored user row: identity, unique name, encoded password and role. */
  datatype User = User(id: int, userName: string, password: string, userRole: UserRole)

  /** A stored post row; owner is the user that wrote it. Timestamps are instants in milliseconds. */
  datatype Post = Post(id: int, title: string, body: string, owner: User, createdAt: int, lastModifiedAt: int)

  datatype UserJoinReq = UserJoinReq(userName: string, password: string, userRole: UserRole)
  datatype PostCreateReq = PostCreateReq(title: string, body: string)
  datatype PostUpdateReq = PostUpdateReq(title: string, body: string)

  datatype UserDto = UserDto(id: int, userName: string, password: string, userRole: UserRole)

  /** The post view returned to callers; timestamps are absent (null) unless the caller fills them. */
  datatype PostDto = PostDto(postId: int, title: string, body: string, userName: string,
                             createdAt: Option<int>, lastModifiedAt: Option<int>)

  /** The password encoder: a one-way encoding and the check of a raw password against an encoding.
      Nothing is assumed about how the two relate. */
  datatype PasswordEncoder = PasswordEncoder(encode: string -> string, matches: (string, string) -> bool)

  /** PostDto.of: the post's id, title and body with the given user name, and no timestamps. */
  function PostDtoOf(post: Post, userName: string): PostDto {
    PostDto(post.id, post.title, post.body, userName, None, None)
  }

  /** The UserDto built from a saved user: every field copied, the encoded password included. */
  function UserDtoOf(u: User): UserDto {
    UserDto(u.id, u.userName, u.password, u.userRole)
  }
}
