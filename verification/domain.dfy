/**
 * The entities of the social-post server: the embedded Like and Comment records, the Post
 * aggregate that owns them, the User record, the identity a session token carries, and the
 * kinds of error the resolvers raise.
 */
module Domain {

  /** Document and sub-document identifiers (Mongo ObjectIds, as their string form). */
  type Id = string

  /** The payload a session token carries: exactly the user's id, email and username. */
  datatype Claims = Claims(id: Id, email: string, username: string)

  /** A like embedded in a post: who liked it and when. */
  datatype Like = Like(username: string, createdAt: string)

  /** A comment embedded in a post. */
  datatype Comment = Comment(id: Id, body: string, username: string, createdAt: string)

  /**
   * A stored post. `username` is the denormalised owner name and `user` the owner's id.
   * `comments` are newest-first, `likes` in the order they were given. The like and comment
   * counters are not stored: they are derived at read time (module Resolvers).
   */
  datatype Post = Post(
    id: Id,
    body: string,
    username: string,
    createdAt: string,
    comments: seq<Comment>,
    likes: seq<Like>,
    user: Id)

  /** A stored user; `password` holds the bcrypt hash, never the plaintext. */
  datatype User = User(id: Id, username: string, password: string, email: string, createdAt: string)

  /** The field-to-message payload a UserInputError carries for inline display. */
  type FieldErrors = map<string, string>

  /** The kinds of failure the resolvers raise; the comment gives the source's message. */
  datatype Error =
    | MissingAuthHeader               // 'Authorisation header must be provided'
    | MalformedAuthHeader             // 'Authentication token must be 'Bearer [token]'
    | InvalidToken                    // AuthenticationError 'Invalid/Expired token'
    | EmptyPostBody                   // 'Post body must not be empty'
    | PostNotFound                    // 'Post not found'
    | ActionNotAllowed                // AuthenticationError 'Action not allowed'
    | UndefinedProperty               // TypeError: a property read on null or undefined
    | EmptyComment(errors: FieldErrors)      // UserInputError 'Empty Comment'
    | InvalidInput(errors: FieldErrors)      // UserInputError 'Errors' (validator output)
    | UserNotFound(errors: FieldErrors)      // UserInputError 'User not found'
    | WrongCredentials(errors: FieldErrors)  // UserInputError 'Wrong credentials'
    | UsernameTaken(errors: FieldErrors)     // UserInputError 'Username is taken'
}
