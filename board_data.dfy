/** The records of the board page that the modelled operations read. Only
    the fields those operations use are kept. A missing author (a post or
    comment written while logged out, stored as `null`) is the empty
    string, which is falsy exactly as `null` is. */
module BoardData {

  type PostId = string
  type CommentId = string
  type StudentId = string

  datatype Post = Post(
    id: PostId,
    boardId: string,
    title: string,
    tags: seq<string>,     // a post stored without tags has none
    likes: int,
    views: int,
    createdAt: int,        // the creation time as a millisecond timestamp
    authorStudentId: StudentId)

  datatype Comment = Comment(
    id: CommentId,
    postId: PostId,
    authorStudentId: StudentId,
    likes: int)
}
