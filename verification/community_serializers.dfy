/** The response shapes of the community endpoints: the thread list entry,
    the thread detail with its embedded book and comments, and the comment.
    Counts are derived from the stored collections at read time. */
module CommunitySerializers {
  import opened Types
  import opened Db
  import Accounts
  import Books
  import Cardinality

  datatype CommentView = CommentView(
    id: CommentId,
    user: Accounts.UserSummary,
    thread: ThreadId,
    content: string,
    createdAt: nat,
    updatedAt: nat)

  /** The list entry: exactly the nine fields of the list serializer. */
  datatype ThreadSummary = ThreadSummary(
    id: ThreadId,
    user: Accounts.UserSummary,
    book: Isbn,
    bookTitle: string,
    title: string,
    rating: int,
    createdAt: nat,
    likeCount: nat,
    commentCount: nat)

  /** The detail: every thread column, with the author and book embedded,
      the thread's comments, and the like count. */
  datatype ThreadDetail = ThreadDetail(
    id: ThreadId,
    user: Accounts.UserSummary,
    book: Books.BookView,
    comments: set<CommentView>,
    likeCount: nat,
    title: string,
    content: string,
    rating: int,
    createdAt: nat,
    updatedAt: nat,
    likeUsers: set<UserId>)

  function CommentViewOf(s: Store, id: CommentId): (v: CommentView)
    requires Valid(s) && id in s.comments
    ensures v.id == id && v.thread == s.comments[id].thread && v.content == s.comments[id].content
    ensures v.createdAt == s.comments[id].createdAt && v.updatedAt == s.comments[id].updatedAt
    ensures v.user == Accounts.Summary(s, s.comments[id].owner)
  {
    var c := s.comments[id];
    assert CommentWellFormed(s, c);
    CommentView(id, Accounts.Summary(s, c.owner), c.thread, c.content, c.createdAt, c.updatedAt)
  }

  function SummaryOf(s: Store, id: ThreadId): (v: ThreadSummary)
    requires Valid(s) && id in s.threads
    ensures v.id == id && v.createdAt == s.threads[id].createdAt
    ensures v.title == s.threads[id].title && v.rating == s.threads[id].rating
    ensures v.user == Accounts.Summary(s, s.threads[id].owner)
    ensures v.book == s.threads[id].book && v.bookTitle == s.books[v.book].title
    ensures v.likeCount == |s.threads[id].likeUsers|
    ensures v.commentCount == |CommentsOf(s, id)|
  {
    var t := s.threads[id];
    assert ThreadWellFormed(s, t);
    ThreadSummary(
      id, Accounts.Summary(s, t.owner), t.book, s.books[t.book].title,
      t.title, t.rating, t.createdAt, |t.likeUsers|, |CommentsOf(s, id)|)
  }

  function DetailOf(s: Store, id: ThreadId): (d: ThreadDetail)
    requires Valid(s) && id in s.threads
    ensures d.id == id && d.title == s.threads[id].title && d.content == s.threads[id].content
    ensures d.user == Accounts.Summary(s, s.threads[id].owner) && d.rating == s.threads[id].rating
    ensures d.createdAt == s.threads[id].createdAt && d.updatedAt == s.threads[id].updatedAt
    ensures d.likeUsers == s.threads[id].likeUsers
    ensures d.book == Books.ViewOf(s.threads[id].book, s.books[s.threads[id].book])
    ensures d.likeCount == |s.threads[id].likeUsers|
  {
    var t := s.threads[id];
    assert ThreadWellFormed(s, t);
    ThreadDetail(
      id, Accounts.Summary(s, t.owner), Books.ViewOf(t.book, s.books[t.book]),
      set c | c in CommentsOf(s, id) :: CommentViewOf(s, c),
      |t.likeUsers|, t.title, t.content, t.rating, t.createdAt, t.updatedAt, t.likeUsers)
  }

  /** The detail embeds exactly the comments whose thread is this one, one
      view per comment, so the embedded list is as long as the list
      entry's comment count. */
  lemma DetailEmbedsExactlyItsComments(s: Store, id: ThreadId)
    requires Valid(s) && id in s.threads
    ensures forall v :: v in DetailOf(s, id).comments <==>
      v.id in s.comments && s.comments[v.id].thread == id && v == CommentViewOf(s, v.id)
    ensures |DetailOf(s, id).comments| == |CommentsOf(s, id)| == SummaryOf(s, id).commentCount
  {
    var views := DetailOf(s, id).comments;
    assert views == set c | c in CommentsOf(s, id) :: CommentViewOf(s, c);
    forall c | c in CommentsOf(s, id)
      ensures exists v :: v in views && v.id == c
    {
      assert CommentViewOf(s, c) in views;
    }
    Cardinality.KeyedSameSize(CommentsOf(s, id), views, (v: CommentView) => v.id);
  }
}
