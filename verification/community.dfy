/** The community endpoints as store transitions: the thread list and
    create, the thread detail (read, partial update, delete), comment create
    and delete, and the like toggle. Reads are public; writes need an
    authenticated actor, and updates and deletes need the actor to be the
    author. */
module Community {
  import opened Types
  import opened Db
  import opened CommunitySerializers
  import ThreadOrder
  import Cascade

  /** The thread-create body. `book_isbn13` names the book; `user` and
      `book` are read-only fields a client may send and that are ignored. */
  datatype ThreadInput = ThreadInput(
    bookIsbn13: Option<Isbn>,
    title: Option<string>,
    content: Option<string>,
    rating: Option<int>,
    user: Option<UserId>,
    book: Option<Isbn>)

  /** The partial-update body. Only title, content and rating are writable;
      the remaining fields are read-only and ignored. */
  datatype ThreadPatch = ThreadPatch(
    title: Option<string>,
    content: Option<string>,
    rating: Option<int>,
    user: Option<UserId>,
    book: Option<Isbn>,
    likeUsers: Option<set<UserId>>)

  /** The comment-create body; `user` and `thread` are read-only. */
  datatype CommentInput = CommentInput(
    content: Option<string>,
    user: Option<UserId>,
    thread: Option<ThreadId>)

  datatype LikeResult = LikeResult(liked: bool, count: nat)

  /** A required text field: sent and not blank. */
  predicate Supplied(field: Option<string>) {
    field.Some? && !Blank(field.value)
  }

  /** An optional text field of a partial update that was sent blank. */
  predicate SentBlank(field: Option<string>) {
    field.Some? && Blank(field.value)
  }

  predicate BookResolves(s: Store, isbn: Option<Isbn>) {
    isbn.Some? && isbn.value in s.books
  }

  /** The one authorization rule for mutation: the actor is the author. */
  predicate MayMutate(s: Store, actor: Option<UserId>, owner: UserId) {
    Actor(s, actor) == Some(owner)
  }

  function IdsOf(v: seq<ThreadSummary>): (ids: seq<ThreadId>)
    ensures |ids| == |v| && forall i :: 0 <= i < |v| ==> ids[i] == v[i].id
  {
    seq(|v|, i requires 0 <= i < |v| => v[i].id)
  }

  /** The list projection of each thread in `ids`, in the same order. */
  function Summaries(s: Store, ids: seq<ThreadId>): (v: seq<ThreadSummary>)
    requires Valid(s) && ThreadOrder.AllIn(s.threads, ids)
    ensures |v| == |ids|
    ensures forall i :: 0 <= i < |ids| ==> v[i] == SummaryOf(s, ids[i])
    ensures ThreadOrder.NewestFirst(s.threads, ids) ==>
      forall i, j :: 0 <= i < j < |v| ==> v[i].createdAt >= v[j].createdAt
  {
    var v := seq(|ids|, i requires 0 <= i < |ids| => SummaryOf(s, ids[i]));
    assert forall i :: 0 <= i < |ids| ==> v[i].createdAt == s.threads[ids[i]].createdAt;
    v
  }

  /** GET /community/threads/: every thread exactly once, newest first,
      each as its list projection. */
  function ListThreads(s: Store): (r: Outcome<seq<ThreadSummary>>)
    requires Valid(s)
    ensures r.Ok?
    ensures multiset(IdsOf(r.value)) == multiset(s.threads.Keys)
    ensures |r.value| == |s.threads|
    ensures forall i :: 0 <= i < |r.value| ==>
      r.value[i].id in s.threads && r.value[i] == SummaryOf(s, r.value[i].id)
    ensures forall i, j :: 0 <= i < j < |r.value| ==> r.value[i].createdAt >= r.value[j].createdAt
  {
    var ids := ThreadOrder.ListOrder(s);
    var v := Summaries(s, ids);
    assert IdsOf(v) == ids;
    Ok(v)
  }

  /** The row the create inserts under the next thread id, stamped with the
      current clock tick and with nobody liking it yet. */
  function InsertThread(s: Store, owner: UserId, isbn: Isbn, title: string, content: string, rating: int): Store {
    s.(threads := s.threads[s.nextThreadId := Thread(owner, isbn, title, content, rating, s.clock, s.clock, {})],
       nextThreadId := s.nextThreadId + 1,
       clock := s.clock + 1)
  }

  lemma InsertThreadKeepsValid(s: Store, owner: UserId, isbn: Isbn, title: string, content: string, rating: int)
    requires Valid(s) && owner in s.users && isbn in s.books
    ensures s.nextThreadId !in s.threads
    ensures Valid(InsertThread(s, owner, isbn, title, content, rating))
    ensures CommentsOf(InsertThread(s, owner, isbn, title, content, rating), s.nextThreadId) == {}
  {
    var s' := InsertThread(s, owner, isbn, title, content, rating);
    forall t | t in s'.threads
      ensures ThreadWellFormed(s', s'.threads[t])
    {
      if t != s.nextThreadId {
        assert ThreadWellFormed(s, s.threads[t]);
      }
    }
    forall c | c in s'.comments
      ensures CommentWellFormed(s', s'.comments[c])
    {
      assert CommentWellFormed(s, s.comments[c]);
    }
    forall c | c in s.comments
      ensures s.comments[c].thread != s.nextThreadId
    {
      assert CommentWellFormed(s, s.comments[c]);
    }
    assert forall c :: c !in CommentsOf(s', s.nextThreadId);
  }

  /** `s'` is `s` plus exactly one new thread `id` with the given server-
      assigned author and book, the given fields, both timestamps at the
      current tick, and no likes; users, follows, books and comments are
      unchanged and so is every other thread. */
  ghost predicate AddsOneThread(
    s: Store, s': Store, id: ThreadId,
    owner: UserId, isbn: Isbn, title: string, content: string, rating: int)
  {
    && id !in s.threads
    && s'.threads.Keys == s.threads.Keys + {id}
    && s'.threads[id] == Thread(owner, isbn, title, content, rating, s.clock, s.clock, {})
    && (forall t :: t in s.threads ==> s'.threads[t] == s.threads[t])
    && s'.users == s.users && s'.follows == s.follows
    && s'.books == s.books && s'.comments == s.comments
    && s'.clock > s.clock
  }

  /** POST /community/threads/ with the evident intent that the body's
      `content` is stored: authentication, then the book lookup, then field
      validation (title and content required, rating defaulting to 0 and
      not range-checked), then the insert. The author and book come from
      the actor and the looked-up ISBN only. */
  function CreateThread(s: Store, actor: Option<UserId>, body: ThreadInput): (r: Step<ThreadSummary>)
    requires Valid(s)
    ensures r.outcome.Created? || r.outcome.Unauthorized? || r.outcome.NotFound? || r.outcome.BadRequest?
    ensures r.outcome.Unauthorized? <==> Actor(s, actor).None?
    ensures r.outcome.NotFound? <==> Actor(s, actor).Some? && !BookResolves(s, body.bookIsbn13)
    ensures r.outcome.Created? <==>
      Actor(s, actor).Some? && BookResolves(s, body.bookIsbn13) && Supplied(body.title) && Supplied(body.content)
    ensures !r.outcome.Created? ==> r.store == s
    ensures Valid(r.store) && r.store.clock >= s.clock
    ensures r.outcome.Created? ==>
      && AddsOneThread(s, r.store, r.outcome.value.id, actor.value, body.bookIsbn13.value,
                       body.title.value, body.content.value, body.rating.GetOr(0))
      && r.outcome.value == SummaryOf(r.store, r.outcome.value.id)
      && r.outcome.value.likeCount == 0 && r.outcome.value.commentCount == 0
  {
    if Actor(s, actor).None? then Step(Unauthorized, s)
    else if !BookResolves(s, body.bookIsbn13) then Step(NotFound, s)
    else if !(Supplied(body.title) && Supplied(body.content)) then Step(BadRequest, s)
    else
      var id := s.nextThreadId;
      var s' := InsertThread(s, actor.value, body.bookIsbn13.value, body.title.value, body.content.value, body.rating.GetOr(0));
      InsertThreadKeepsValid(s, actor.value, body.bookIsbn13.value, body.title.value, body.content.value, body.rating.GetOr(0));
      Step(Created(SummaryOf(s', id)), s')
  }

  /** POST /community/threads/ as written: the list serializer that parses
      the body has no `content` field, so the content is never validated
      and the row is saved with the column's empty default. */
  function CreateThreadAsWritten(s: Store, actor: Option<UserId>, body: ThreadInput): (r: Step<ThreadSummary>)
    requires Valid(s)
    ensures r.outcome.Created? || r.outcome.Unauthorized? || r.outcome.NotFound? || r.outcome.BadRequest?
    ensures r.outcome.Unauthorized? <==> Actor(s, actor).None?
    ensures r.outcome.NotFound? <==> Actor(s, actor).Some? && !BookResolves(s, body.bookIsbn13)
    ensures r.outcome.Created? <==>
      Actor(s, actor).Some? && BookResolves(s, body.bookIsbn13) && Supplied(body.title)
    ensures !r.outcome.Created? ==> r.store == s
    ensures Valid(r.store) && r.store.clock >= s.clock
    ensures r.outcome.Created? ==>
      && AddsOneThread(s, r.store, r.outcome.value.id, actor.value, body.bookIsbn13.value,
                       body.title.value, "", body.rating.GetOr(0))
      && r.outcome.value == SummaryOf(r.store, r.outcome.value.id)
      && r.outcome.value.likeCount == 0 && r.outcome.value.commentCount == 0
  {
    if Actor(s, actor).None? then Step(Unauthorized, s)
    else if !BookResolves(s, body.bookIsbn13) then Step(NotFound, s)
    else if !Supplied(body.title) then Step(BadRequest, s)
    else
      var id := s.nextThreadId;
      var s' := InsertThread(s, actor.value, body.bookIsbn13.value, body.title.value, "", body.rating.GetOr(0));
      InsertThreadKeepsValid(s, actor.value, body.bookIsbn13.value, body.title.value, "", body.rating.GetOr(0));
      Step(Created(SummaryOf(s', id)), s')
  }

  /** The discrepancy: a well-formed create whose body carries non-blank
      content stores a thread whose content is empty, where the intended
      create stores the content that was sent. */
  lemma CreateDropsContent(s: Store, me: UserId, isbn: Isbn)
    requires Valid(s) && me in s.users && isbn in s.books
    ensures
      var body := ThreadInput(Some(isbn), Some("My Review"), Some("Great book!"), Some(5), None, None);
      var written := CreateThreadAsWritten(s, Some(me), body);
      var intended := CreateThread(s, Some(me), body);
      && written.outcome.Created? && intended.outcome.Created?
      && written.store.threads[written.outcome.value.id].content == ""
      && intended.store.threads[intended.outcome.value.id].content == "Great book!"
  {
  }

  /** Client-sent `user` and `book` fields have no effect on a create. */
  lemma CreateIgnoresClientOwnerAndBook(
    s: Store, actor: Option<UserId>, body: ThreadInput, user: Option<UserId>, book: Option<Isbn>)
    requires Valid(s)
    ensures CreateThread(s, actor, body.(user := user, book := book)) == CreateThread(s, actor, body)
    ensures CreateThreadAsWritten(s, actor, body.(user := user, book := book)) == CreateThreadAsWritten(s, actor, body)
  {
  }

  /** GET /community/threads/{id}/: public; 404 for an unknown id. */
  function GetThread(s: Store, id: ThreadId): (r: Outcome<ThreadDetail>)
    requires Valid(s)
    ensures r.Ok? || r.NotFound?
    ensures r.Ok? <==> id in s.threads
    ensures r.Ok? ==> r.value == DetailOf(s, id) && r.value.id == id
  {
    if id in s.threads then Ok(DetailOf(s, id)) else NotFound
  }

  /** The checks PUT and DELETE share, in the handler's order: the thread
      lookup, authentication, ownership. */
  function GuardThreadWrite(s: Store, actor: Option<UserId>, id: ThreadId): (r: Outcome<()>)
    ensures r.Ok? || r.NotFound? || r.Unauthorized? || r.Forbidden?
    ensures r.NotFound? <==> id !in s.threads
    ensures r.Unauthorized? <==> id in s.threads && Actor(s, actor).None?
    ensures r.Forbidden? <==> id in s.threads && Actor(s, actor).Some? && !MayMutate(s, actor, s.threads[id].owner)
    ensures r.Ok? <==> id in s.threads && MayMutate(s, actor, s.threads[id].owner)
  {
    if id !in s.threads then NotFound
    else if Actor(s, actor).None? then Unauthorized
    else if !MayMutate(s, actor, s.threads[id].owner) then Forbidden
    else Ok(())
  }

  function Patched(t: Thread, patch: ThreadPatch, now: nat): Thread {
    t.(title := patch.title.GetOr(t.title),
       content := patch.content.GetOr(t.content),
       rating := patch.rating.GetOr(t.rating),
       updatedAt := now)
  }

  lemma PatchKeepsValid(s: Store, id: ThreadId, patch: ThreadPatch)
    requires Valid(s) && id in s.threads
    ensures Valid(s.(threads := s.threads[id := Patched(s.threads[id], patch, s.clock)], clock := s.clock + 1))
  {
    var s' := s.(threads := s.threads[id := Patched(s.threads[id], patch, s.clock)], clock := s.clock + 1);
    forall t | t in s'.threads
      ensures ThreadWellFormed(s', s'.threads[t])
    {
      assert ThreadWellFormed(s, s.threads[t]);
    }
    forall c | c in s'.comments
      ensures CommentWellFormed(s', s'.comments[c])
    {
      assert CommentWellFormed(s, s.comments[c]);
    }
  }

  /** PUT /community/threads/{id}/: a partial update by the author. Only
      title, content and rating change, each only when sent; the author,
      book, likes, creation time and comments stay; the update time moves
      to the current tick. A refused request changes nothing. */
  function UpdateThread(s: Store, actor: Option<UserId>, id: ThreadId, patch: ThreadPatch): (r: Step<ThreadDetail>)
    requires Valid(s)
    ensures r.outcome.Ok? || r.outcome.NotFound? || r.outcome.Unauthorized? || r.outcome.Forbidden? || r.outcome.BadRequest?
    ensures r.outcome.NotFound? <==> id !in s.threads
    ensures r.outcome.Unauthorized? <==> id in s.threads && Actor(s, actor).None?
    ensures r.outcome.Forbidden? <==> id in s.threads && Actor(s, actor).Some? && !MayMutate(s, actor, s.threads[id].owner)
    ensures r.outcome.BadRequest? <==>
      id in s.threads && MayMutate(s, actor, s.threads[id].owner) && (SentBlank(patch.title) || SentBlank(patch.content))
    ensures !r.outcome.Ok? ==> r.store == s
    ensures Valid(r.store) && r.store.clock >= s.clock
    ensures r.outcome.Ok? ==>
      && id in s.threads && id in r.store.threads
      && var (t, t') := (s.threads[id], r.store.threads[id]);
      && t'.owner == t.owner && t'.book == t.book && t'.likeUsers == t.likeUsers
      && t'.createdAt == t.createdAt && t'.updatedAt > t.updatedAt
      && t'.updatedAt == s.clock < r.store.clock
      && t'.title == (if patch.title.Some? then patch.title.value else t.title)
      && t'.content == (if patch.content.Some? then patch.content.value else t.content)
      && t'.rating == (if patch.rating.Some? then patch.rating.value else t.rating)
      && r.store.threads.Keys == s.threads.Keys
      && (forall o :: o in s.threads && o != id ==> r.store.threads[o] == s.threads[o])
      && r.store.comments == s.comments && r.store.users == s.users
      && r.store.follows == s.follows && r.store.books == s.books
      && r.outcome.value == DetailOf(r.store, id)
  {
    match GuardThreadWrite(s, actor, id)
    case NotFound => Step(NotFound, s)
    case Unauthorized => Step(Unauthorized, s)
    case Forbidden => Step(Forbidden, s)
    case Ok(_) =>
      if SentBlank(patch.title) || SentBlank(patch.content) then Step(BadRequest, s)
      else
        var s' := s.(threads := s.threads[id := Patched(s.threads[id], patch, s.clock)], clock := s.clock + 1);
        PatchKeepsValid(s, id, patch);
        assert ThreadWellFormed(s, s.threads[id]);
        Step(Ok(DetailOf(s', id)), s')
  }

  /** Read-only fields sent in a PUT body (author, book, likers) have no
      effect. */
  lemma UpdateIgnoresReadOnlyFields(
    s: Store, actor: Option<UserId>, id: ThreadId, patch: ThreadPatch,
    user: Option<UserId>, book: Option<Isbn>, likeUsers: Option<set<UserId>>)
    requires Valid(s)
    ensures UpdateThread(s, actor, id, patch.(user := user, book := book, likeUsers := likeUsers))
         == UpdateThread(s, actor, id, patch)
  {
  }

  /** DELETE /community/threads/{id}/: the author removes the thread and,
      by cascade, its comments and likes. */
  function DeleteThread(s: Store, actor: Option<UserId>, id: ThreadId): (r: Step<()>)
    requires Valid(s)
    ensures r.outcome.NoContent? || r.outcome.NotFound? || r.outcome.Unauthorized? || r.outcome.Forbidden?
    ensures r.outcome.NotFound? <==> id !in s.threads
    ensures r.outcome.Unauthorized? <==> id in s.threads && Actor(s, actor).None?
    ensures r.outcome.Forbidden? <==> id in s.threads && Actor(s, actor).Some? && !MayMutate(s, actor, s.threads[id].owner)
    ensures r.outcome.NoContent? <==> id in s.threads && MayMutate(s, actor, s.threads[id].owner)
    ensures !r.outcome.NoContent? ==> r.store == s
    ensures r.outcome.NoContent? ==> r.store == Cascade.DeleteThread(s, id)
    ensures Valid(r.store) && r.store.clock >= s.clock
  {
    match GuardThreadWrite(s, actor, id)
    case NotFound => Step(NotFound, s)
    case Unauthorized => Step(Unauthorized, s)
    case Forbidden => Step(Forbidden, s)
    case Ok(_) =>
      Cascade.DeleteThreadKeepsValid(s, id);
      Step(NoContent, Cascade.DeleteThread(s, id))
  }

  /** After the author's delete, the thread reads as 404, none of its
      comments remain, and every other thread and comment is untouched. */
  lemma DeleteThenGetNotFound(s: Store, me: UserId, id: ThreadId)
    requires Valid(s) && id in s.threads && s.threads[id].owner == me
    ensures
      var r := DeleteThread(s, Some(me), id);
      && r.outcome == NoContent
      && GetThread(r.store, id) == NotFound
      && (forall c :: c in s.comments && s.comments[c].thread == id ==> c !in r.store.comments)
      && (forall c :: c in s.comments && s.comments[c].thread != id ==> c in r.store.comments)
      && (forall t :: t in s.threads && t != id ==> t in r.store.threads && r.store.threads[t] == s.threads[t])
  {
    assert ThreadWellFormed(s, s.threads[id]);
    var r := DeleteThread(s, Some(me), id);
    Cascade.DeleteThreadKeepsValid(s, id);
  }

  function InsertComment(s: Store, owner: UserId, thread: ThreadId, content: string): Store {
    s.(comments := s.comments[s.nextCommentId := Comment(owner, thread, content, s.clock, s.clock)],
       nextCommentId := s.nextCommentId + 1,
       clock := s.clock + 1)
  }

  lemma InsertCommentKeepsValid(s: Store, owner: UserId, thread: ThreadId, content: string)
    requires Valid(s) && owner in s.users && thread in s.threads
    ensures s.nextCommentId !in s.comments
    ensures Valid(InsertComment(s, owner, thread, content))
  {
    var s' := InsertComment(s, owner, thread, content);
    forall t | t in s'.threads
      ensures ThreadWellFormed(s', s'.threads[t])
    {
      assert ThreadWellFormed(s, s.threads[t]);
    }
    forall c | c in s'.comments
      ensures CommentWellFormed(s', s'.comments[c])
    {
      if c != s.nextCommentId {
        assert CommentWellFormed(s, s.comments[c]);
      }
    }
  }

  /** POST /community/threads/{id}/comments/: authentication, the thread
      lookup, content validation, then one new comment whose author and
      thread come from the actor and the URL only. */
  function CreateComment(s: Store, actor: Option<UserId>, thread: ThreadId, body: CommentInput): (r: Step<CommentView>)
    requires Valid(s)
    ensures r.outcome.Created? || r.outcome.Unauthorized? || r.outcome.NotFound? || r.outcome.BadRequest?
    ensures r.outcome.Unauthorized? <==> Actor(s, actor).None?
    ensures r.outcome.NotFound? <==> Actor(s, actor).Some? && thread !in s.threads
    ensures r.outcome.Created? <==> Actor(s, actor).Some? && thread in s.threads && Supplied(body.content)
    ensures !r.outcome.Created? ==> r.store == s
    ensures Valid(r.store) && r.store.clock >= s.clock
    ensures r.outcome.Created? ==>
      && var id := r.outcome.value.id;
      && id !in s.comments
      && r.store.comments.Keys == s.comments.Keys + {id}
      && r.store.comments[id].owner == actor.value
      && r.store.comments[id].thread == thread
      && r.store.comments[id].content == body.content.value
      && r.store.comments[id].createdAt == r.store.comments[id].updatedAt == s.clock < r.store.clock
      && (forall c :: c in s.comments ==> r.store.comments[c] == s.comments[c])
      && r.store.threads == s.threads && r.store.users == s.users
      && r.store.follows == s.follows && r.store.books == s.books
      && r.outcome.value == CommentViewOf(r.store, id)
  {
    if Actor(s, actor).None? then Step(Unauthorized, s)
    else if thread !in s.threads then Step(NotFound, s)
    else if !Supplied(body.content) then Step(BadRequest, s)
    else
      var s' := InsertComment(s, actor.value, thread, body.content.value);
      InsertCommentKeepsValid(s, actor.value, thread, body.content.value);
      Step(Created(CommentViewOf(s', s.nextCommentId)), s')
  }

  /** Client-sent `user` and `thread` fields have no effect on a comment. */
  lemma CreateCommentIgnoresClientFields(
    s: Store, actor: Option<UserId>, thread: ThreadId, body: CommentInput,
    user: Option<UserId>, other: Option<ThreadId>)
    requires Valid(s)
    ensures CreateComment(s, actor, thread, body.(user := user, thread := other))
         == CreateComment(s, actor, thread, body)
  {
  }

  /** A new comment raises its own thread's derived comment count by one
      and leaves every other thread's count alone. */
  lemma CommentCountFollowsCreate(s: Store, actor: Option<UserId>, thread: ThreadId, body: CommentInput, other: ThreadId)
    requires Valid(s)
    requires CreateComment(s, actor, thread, body).outcome.Created?
    requires other in s.threads
    ensures
      var s' := CreateComment(s, actor, thread, body).store;
      other in s'.threads &&
      SummaryOf(s', other).commentCount ==
        SummaryOf(s, other).commentCount + (if other == thread then 1 else 0)
  {
    var s' := CreateComment(s, actor, thread, body).store;
    InsertCommentKeepsValid(s, actor.value, thread, body.content.value);
    assert s.nextCommentId !in s.comments;
    InsertCommentCounts(s, actor.value, thread, body.content.value, other);
    assert s' == InsertComment(s, actor.value, thread, body.content.value);
  }

  /** Inserting a comment adds its id to its own thread's comments only. */
  lemma InsertCommentCounts(s: Store, owner: UserId, thread: ThreadId, content: string, other: ThreadId)
    requires s.nextCommentId !in s.comments
    ensures |CommentsOf(InsertComment(s, owner, thread, content), other)| ==
      |CommentsOf(s, other)| + (if other == thread then 1 else 0)
  {
    var s' := InsertComment(s, owner, thread, content);
    var id := s.nextCommentId;
    var before, after := CommentsOf(s, other), CommentsOf(s', other);
    if other == thread {
      forall c
        ensures c in after <==> c in before + {id}
      {
        if c != id && c in s.comments {
          assert s'.comments[c] == s.comments[c];
        }
      }
      assert after == before + {id};
    } else {
      forall c
        ensures c in after <==> c in before
      {
        if c != id && c in s.comments {
          assert s'.comments[c] == s.comments[c];
        }
      }
      assert after == before;
    }
  }

  /** DELETE /community/comments/{id}/: authentication, the comment
      lookup, then the author check; the author's request removes exactly
      that comment. */
  function DeleteComment(s: Store, actor: Option<UserId>, id: CommentId): (r: Step<()>)
    requires Valid(s)
    ensures r.outcome.NoContent? || r.outcome.Unauthorized? || r.outcome.NotFound? || r.outcome.Forbidden?
    ensures r.outcome.Unauthorized? <==> Actor(s, actor).None?
    ensures r.outcome.NotFound? <==> Actor(s, actor).Some? && id !in s.comments
    ensures r.outcome.Forbidden? <==> Actor(s, actor).Some? && id in s.comments && !MayMutate(s, actor, s.comments[id].owner)
    ensures !r.outcome.NoContent? ==> r.store == s
    ensures r.outcome.NoContent? ==>
      && r.store.comments.Keys == s.comments.Keys - {id}
      && (forall c :: c in r.store.comments ==> r.store.comments[c] == s.comments[c])
      && r.store == s.(comments := r.store.comments)
    ensures Valid(r.store) && r.store.clock >= s.clock
  {
    if Actor(s, actor).None? then Step(Unauthorized, s)
    else if id !in s.comments then Step(NotFound, s)
    else if !MayMutate(s, actor, s.comments[id].owner) then Step(Forbidden, s)
    else
      RemoveCommentKeepsValid(s, id);
      Step(NoContent, s.(comments := s.comments - {id}))
  }

  lemma RemoveCommentKeepsValid(s: Store, id: CommentId)
    requires Valid(s)
    ensures Valid(s.(comments := s.comments - {id}))
  {
    var s' := s.(comments := s.comments - {id});
    forall t | t in s'.threads
      ensures ThreadWellFormed(s', s'.threads[t])
    {
      assert ThreadWellFormed(s, s.threads[t]);
    }
    forall c | c in s'.comments
      ensures CommentWellFormed(s', s'.comments[c])
    {
      assert CommentWellFormed(s, s.comments[c]);
    }
  }

  function ToggleIn(xs: set<UserId>, x: UserId): set<UserId> {
    if x in xs then xs - {x} else xs + {x}
  }

  /** POST /community/threads/{id}/likes/: authentication, the thread
      lookup, then the toggle of the actor's membership in the like-set.
      The body reports whether the actor now likes the thread and the new
      size of the like-set. Nothing else changes. */
  function ToggleLike(s: Store, actor: Option<UserId>, id: ThreadId): (r: Step<LikeResult>)
    requires Valid(s)
    ensures r.outcome.Ok? || r.outcome.Unauthorized? || r.outcome.NotFound?
    ensures r.outcome.Unauthorized? <==> Actor(s, actor).None?
    ensures r.outcome.NotFound? <==> Actor(s, actor).Some? && id !in s.threads
    ensures !r.outcome.Ok? ==> r.store == s
    ensures Valid(r.store) && r.store.clock >= s.clock
    ensures r.outcome.Ok? ==>
      && id in s.threads && id in r.store.threads
      && var (me, likes, likes') := (actor.value, s.threads[id].likeUsers, r.store.threads[id].likeUsers);
      && (me in likes' <==> me !in likes)
      && likes' - {me} == likes - {me}
      && r.outcome.value.liked == (me in likes')
      && r.outcome.value.count == |likes'|
      && r.store.threads[id] == s.threads[id].(likeUsers := likes')
      && r.store == s.(threads := r.store.threads)
      && r.store.threads.Keys == s.threads.Keys
      && (forall t :: t in s.threads && t != id ==> r.store.threads[t] == s.threads[t])
  {
    match Actor(s, actor)
    case None => Step(Unauthorized, s)
    case Some(me) =>
      if id !in s.threads then Step(NotFound, s)
      else
        var likes := ToggleIn(s.threads[id].likeUsers, me);
        SetLikesKeepsValid(s, id, likes);
        Step(Ok(LikeResult(me in likes, |likes|)), SetLikes(s, id, likes))
  }

  function SetLikes(s: Store, id: ThreadId, likes: set<UserId>): Store
    requires id in s.threads
  {
    s.(threads := s.threads[id := s.threads[id].(likeUsers := likes)])
  }

  lemma SetLikesKeepsValid(s: Store, id: ThreadId, likes: set<UserId>)
    requires Valid(s) && id in s.threads && likes <= s.users.Keys
    ensures Valid(SetLikes(s, id, likes))
  {
    var s' := SetLikes(s, id, likes);
    forall t | t in s'.threads
      ensures ThreadWellFormed(s', s'.threads[t])
    {
      assert ThreadWellFormed(s, s.threads[t]);
    }
    forall c | c in s'.comments
      ensures CommentWellFormed(s', s'.comments[c])
    {
      assert CommentWellFormed(s, s.comments[c]);
    }
  }

  /** Liking is a toggle: a second identical request restores the store,
      and answers with the opposite `liked` and the original count. */
  lemma LikeTwiceRestores(s: Store, actor: Option<UserId>, id: ThreadId)
    requires Valid(s)
    ensures
      var r1 := ToggleLike(s, actor, id);
      var r2 := ToggleLike(r1.store, actor, id);
      && r2.store == s
      && (r1.outcome.Ok? ==>
            && r2.outcome.Ok?
            && r2.outcome.value.liked == !r1.outcome.value.liked
            && r2.outcome.value.count == |s.threads[id].likeUsers|)
  {
    var r1 := ToggleLike(s, actor, id);
    if r1.outcome.Ok? {
      LikeTwiceRestoresStore(s, actor.value, id);
    }
  }

  lemma LikeTwiceRestoresStore(s: Store, me: UserId, id: ThreadId)
    requires Valid(s) && me in s.users && id in s.threads
    ensures var s1 := ToggleLike(s, Some(me), id).store; ToggleLike(s1, Some(me), id).store == s
  {
    var likes := s.threads[id].likeUsers;
    var s1 := SetLikes(s, id, ToggleIn(likes, me));
    assert ToggleLike(s, Some(me), id).store == s1;
    assert s1.threads[id].likeUsers == ToggleIn(likes, me);
    assert ToggleIn(ToggleIn(likes, me), me) == likes;
    SetLikesRestores(s, id, ToggleIn(likes, me));
  }

  /** Writing a like-set and then writing back the original one restores
      the store. */
  lemma SetLikesRestores(s: Store, id: ThreadId, likes: set<UserId>)
    requires id in s.threads
    ensures SetLikes(SetLikes(s, id, likes), id, s.threads[id].likeUsers) == s
  {
    var s2 := SetLikes(SetLikes(s, id, likes), id, s.threads[id].likeUsers);
    assert s2.threads[id] == s.threads[id];
    assert s2.threads == s.threads;
  }

  /** The count the toggle answers with is the like count both projections
      show afterwards. */
  lemma LikeCountMatchesProjections(s: Store, actor: Option<UserId>, id: ThreadId)
    requires Valid(s)
    requires ToggleLike(s, actor, id).outcome.Ok?
    ensures
      var r := ToggleLike(s, actor, id);
      && id in r.store.threads
      && SummaryOf(r.store, id).likeCount == r.outcome.value.count
      && DetailOf(r.store, id).likeCount == r.outcome.value.count
  {
  }
}
