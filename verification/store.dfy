/** The persistent state behind every request: users and their follow
    relation, the book catalogue, threads with their like-sets, and
    comments. Each table is a map from primary key to record; the
    many-to-many join tables are sets of pairs (follow) or a set inside the
    thread record (likes). */
module Db {
  import opened Types

  datatype User = User(username: string, password: Credential)

  datatype Book = Book(
    title: string,
    author: string,
    publisher: string,
    cover: string,
    descriptions: string)

  datatype Thread = Thread(
    owner: UserId,
    book: Isbn,
    title: string,
    content: string,
    rating: int,
    createdAt: nat,
    updatedAt: nat,
    likeUsers: set<UserId>)

  datatype Comment = Comment(
    owner: UserId,
    thread: ThreadId,
    content: string,
    createdAt: nat,
    updatedAt: nat)

  /** `follows` holds the pairs (follower, followee). `clock` is the next
      timestamp to hand out; the `next*` counters are the next primary keys. */
  datatype Store = Store(
    users: map<UserId, User>,
    follows: set<(UserId, UserId)>,
    books: map<Isbn, Book>,
    threads: map<ThreadId, Thread>,
    comments: map<CommentId, Comment>,
    clock: nat,
    nextUserId: UserId,
    nextThreadId: ThreadId,
    nextCommentId: CommentId)

  /** The result of a handler that may write: its outcome and the new store. */
  datatype Step<+T> = Step(outcome: Outcome<T>, store: Store)

  /** The username column is unique. */
  ghost predicate UsernamesUnique(users: map<UserId, User>) {
    forall a, b :: a in users && b in users && users[a].username == users[b].username ==> a == b
  }

  /** Both ends of every follow edge are users, and nobody follows themself. */
  ghost predicate FollowsWellFormed(s: Store) {
    forall e :: e in s.follows ==> e.0 in s.users && e.1 in s.users && e.0 != e.1
  }

  /** Foreign keys of a thread (its author, its book, its likers) resolve,
      and its timestamps were handed out by the clock. */
  ghost predicate ThreadWellFormed(s: Store, t: Thread) {
    && t.owner in s.users
    && t.book in s.books
    && t.likeUsers <= s.users.Keys
    && t.createdAt <= t.updatedAt < s.clock
  }

  ghost predicate CommentWellFormed(s: Store, c: Comment) {
    && c.owner in s.users
    && c.thread in s.threads
    && c.createdAt <= c.updatedAt < s.clock
  }

  /** Every key is below the counter that will produce the next key. */
  ghost predicate KeysBelowCounters(s: Store) {
    && (forall u :: u in s.users ==> u < s.nextUserId)
    && (forall t :: t in s.threads ==> t < s.nextThreadId)
    && (forall c :: c in s.comments ==> c < s.nextCommentId)
  }

  /** The referential integrity the database's foreign keys and cascades
      maintain, plus the uniqueness and counter facts the handlers rely on. */
  ghost predicate Valid(s: Store) {
    && UsernamesUnique(s.users)
    && FollowsWellFormed(s)
    && (forall t :: t in s.threads ==> ThreadWellFormed(s, s.threads[t]))
    && (forall c :: c in s.comments ==> CommentWellFormed(s, s.comments[c]))
    && KeysBelowCounters(s)
  }

  /** The user a request acts for, as the handlers' `is_authenticated`
      test sees it: `None` for a request without credentials. A token whose
      user no longer exists is refused with 401 before any handler runs
      (see `Routes.Handle`); a handler reached with such an id reads it as
      anonymous. */
  function Actor(s: Store, actor: Option<UserId>): (r: Option<UserId>)
    ensures r.Some? <==> actor.Some? && actor.value in s.users
    ensures r.Some? ==> r == actor
  {
    if actor.Some? && actor.value in s.users then actor else None
  }

  /** The ids of the comments that belong to a thread. */
  function CommentsOf(s: Store, id: ThreadId): set<CommentId> {
    set c | c in s.comments && s.comments[c].thread == id
  }
}
