/** The URL table of the back end: every route with the HTTP method its
    view accepts, dispatched to the transition that models the view. */
module Routes {
  import opened Types
  import opened Db
  import Accounts
  import Books
  import opened CommunitySerializers
  import Community

  datatype Request =
    | Signup(body: Accounts.SignupInput, hashed: Credential)  // POST accounts/signup/
    | Profile(username: string)                              // GET accounts/profile/<username>/
    | Follow(target: UserId)                                 // POST accounts/follow/<user_id>/
    | BookList                                               // GET books/
    | BookDetail(isbn: Isbn)                                 // GET books/<isbn13>/
    | ThreadList                                             // GET community/threads/
    | ThreadCreate(thread: Community.ThreadInput)            // POST community/threads/
    | ThreadGet(id: ThreadId)                                // GET community/threads/<pk>/
    | ThreadPut(id: ThreadId, patch: Community.ThreadPatch)  // PUT community/threads/<pk>/
    | ThreadDelete(id: ThreadId)                             // DELETE community/threads/<pk>/
    | CommentCreate(id: ThreadId, comment: Community.CommentInput)  // POST community/threads/<pk>/comments/
    | CommentDelete(id: CommentId)                           // DELETE community/comments/<pk>/
    | Like(id: ThreadId)                                     // POST community/threads/<pk>/likes/
  {
    /** The GET routes. */
    predicate IsRead() {
      Profile? || BookList? || BookDetail? || ThreadList? || ThreadGet?
    }
  }

  datatype Body =
    | NoBody
    | SignupBody(signup: Accounts.SignupView)
    | ProfileBody(profile: Accounts.ProfileView)
    | FollowBody(followed: bool)
    | BooksBody(books: set<Books.BookView>)
    | BookBody(book: Books.BookView)
    | ThreadsBody(threads: seq<ThreadSummary>)
    | ThreadBody(summary: ThreadSummary)
    | DetailBody(detail: ThreadDetail)
    | CommentBody(comment: CommentView)
    | LikeBody(like: Community.LikeResult)

  function Read<T>(s: Store, o: Outcome<T>, f: T -> Body): (r: Step<Body>)
    ensures r.store == s && (r.outcome.IsError() <==> o.IsError())
  {
    Step(o.MapBody(f), s)
  }

  function Write<T>(r: Step<T>, f: T -> Body): (r': Step<Body>)
    ensures r'.store == r.store && (r'.outcome.IsError() <==> r.outcome.IsError())
  {
    Step(r.outcome.MapBody(f), r.store)
  }

  /** What every route guarantees: the store stays referentially intact;
      reads, refused requests and anonymous requests (other than sign-up)
      leave it unchanged; the clock never goes back. */
  ghost predicate WellBehaved(s: Store, actor: Option<UserId>, req: Request, r: Step<Body>) {
    && Valid(r.store)
    && (req.IsRead() ==> r.store == s)
    && (r.outcome.IsError() ==> r.store == s)
    && (Actor(s, actor).None? && !req.Signup? ==> r.store == s)
    && r.store.clock >= s.clock
  }

  /** The token check the authentication layer runs before any view: a
      request either carries no credentials or a token of an existing user. */
  predicate TokenAccepted(s: Store, actor: Option<UserId>) {
    actor.None? || actor.value in s.users
  }

  /** One request against the store: a token whose user no longer exists is
      refused with 401 on every route, public ones included; otherwise the
      request is dispatched by URL. */
  function Handle(s: Store, actor: Option<UserId>, req: Request): (r: Step<Body>)
    requires Valid(s)
    ensures !TokenAccepted(s, actor) ==> r == Step(Unauthorized, s)
    ensures Valid(r.store)
    ensures req.IsRead() ==> r.store == s
    ensures r.outcome.Code() >= 400 ==> r.store == s
    ensures actor.None? && !req.Signup? ==> r.store == s
    ensures r.store.clock >= s.clock
  {
    if !TokenAccepted(s, actor) then Step(Unauthorized, s)
    else
      var r :=
        if req.Signup? || req.Profile? || req.Follow? then HandleAccounts(s, actor, req)
        else if req.BookList? || req.BookDetail? then HandleBooks(s, actor, req)
        else if req.ThreadList? || req.ThreadGet? || req.ThreadCreate? then HandleThreads(s, actor, req)
        else if req.ThreadPut? || req.ThreadDelete? then HandleThreadWrites(s, actor, req)
        else if req.CommentCreate? || req.CommentDelete? then HandleComments(s, actor, req)
        else HandleLike(s, actor, req);
      assert WellBehaved(s, actor, req, r);
      r
  }

  function HandleAccounts(s: Store, actor: Option<UserId>, req: Request): (r: Step<Body>)
    requires Valid(s) && (req.Signup? || req.Profile? || req.Follow?)
    ensures WellBehaved(s, actor, req, r)
  {
    match req
    case Signup(body, hashed) => Write(Accounts.Signup(s, body, hashed), v => SignupBody(v))
    case Profile(name) => Read(s, Accounts.Profile(s, actor, name), v => ProfileBody(v))
    case Follow(target) => Write(Accounts.Follow(s, actor, target), v => FollowBody(v))
  }

  function HandleBooks(s: Store, actor: Option<UserId>, req: Request): (r: Step<Body>)
    requires Valid(s) && (req.BookList? || req.BookDetail?)
    ensures WellBehaved(s, actor, req, r)
  {
    match req
    case BookList => Read(s, Books.BookList(s), v => BooksBody(v))
    case BookDetail(isbn) => Read(s, Books.BookDetail(s, isbn), v => BookBody(v))
  }

  function HandleThreads(s: Store, actor: Option<UserId>, req: Request): (r: Step<Body>)
    requires Valid(s) && (req.ThreadList? || req.ThreadGet? || req.ThreadCreate?)
    ensures WellBehaved(s, actor, req, r)
  {
    match req
    case ThreadList => Read(s, Community.ListThreads(s), v => ThreadsBody(v))
    case ThreadGet(id) => Read(s, Community.GetThread(s, id), v => DetailBody(v))
    case ThreadCreate(body) => Write(Community.CreateThreadAsWritten(s, actor, body), v => ThreadBody(v))
  }

  /** Changes to an existing thread. */
  function HandleThreadWrites(s: Store, actor: Option<UserId>, req: Request): (r: Step<Body>)
    requires Valid(s) && (req.ThreadPut? || req.ThreadDelete?)
    ensures WellBehaved(s, actor, req, r)
  {
    match req
    case ThreadPut(id, patch) => Write(Community.UpdateThread(s, actor, id, patch), v => DetailBody(v))
    case ThreadDelete(id) => Write(Community.DeleteThread(s, actor, id), (v: ()) => NoBody)
  }

  function HandleComments(s: Store, actor: Option<UserId>, req: Request): (r: Step<Body>)
    requires Valid(s) && (req.CommentCreate? || req.CommentDelete?)
    ensures WellBehaved(s, actor, req, r)
  {
    match req
    case CommentCreate(id, body) => Write(Community.CreateComment(s, actor, id, body), v => CommentBody(v))
    case CommentDelete(id) => Write(Community.DeleteComment(s, actor, id), (v: ()) => NoBody)
  }

  function HandleLike(s: Store, actor: Option<UserId>, req: Request): (r: Step<Body>)
    requires Valid(s) && req.Like?
    ensures WellBehaved(s, actor, req, r)
  {
    Write(Community.ToggleLike(s, actor, req.id), v => LikeBody(v))
  }

  /** Both book routes are reads that never change the store; with an
      accepted token the list always answers with the whole catalogue and
      the detail runs the detail handler, answering 200 exactly for a
      catalogue key. */
  lemma BookRoutesAreReadOnly(s: Store, actor: Option<UserId>, isbn: Isbn)
    requires Valid(s)
    ensures Handle(s, actor, BookList).store == s && Handle(s, actor, BookDetail(isbn)).store == s
    ensures TokenAccepted(s, actor) ==>
      Handle(s, actor, BookList) == Step(Ok(BooksBody(Books.BookList(s).value)), s)
    ensures Handle(s, actor, BookDetail(isbn)).outcome.Ok? <==> TokenAccepted(s, actor) && isbn in s.books
    ensures TokenAccepted(s, actor) ==>
      Runs(Handle(s, actor, BookDetail(isbn)), Step(Books.BookDetail(s, isbn), s), v => BookBody(v))
  {
  }

  /** The routed step `r` is the handler's step `h`: the same store, the
      same status, and on success the handler's body wrapped by `body`. */
  ghost predicate Runs<T>(r: Step<Body>, h: Step<T>, body: T -> Body) {
    && r.store == h.store
    && r.outcome.Code() == h.outcome.Code()
    && (h.outcome.Ok? ==> r.outcome == Ok(body(h.outcome.value)))
    && (h.outcome.Created? ==> r.outcome == Created(body(h.outcome.value)))
  }

  /** With an accepted token, the account URLs run signup, profile and
      follow. */
  lemma AccountRoutesRun(
    s: Store, actor: Option<UserId>, input: Accounts.SignupInput, hashed: Credential,
    name: string, target: UserId)
    requires Valid(s) && TokenAccepted(s, actor)
    ensures Runs(Handle(s, actor, Signup(input, hashed)), Accounts.Signup(s, input, hashed), v => SignupBody(v))
    ensures Runs(Handle(s, actor, Profile(name)), Step(Accounts.Profile(s, actor, name), s), v => ProfileBody(v))
    ensures Runs(Handle(s, actor, Follow(target)), Accounts.Follow(s, actor, target), v => FollowBody(v))
  {
    assert Handle(s, actor, Signup(input, hashed)) == HandleAccounts(s, actor, Signup(input, hashed));
    assert Handle(s, actor, Profile(name)) == HandleAccounts(s, actor, Profile(name));
    assert Handle(s, actor, Follow(target)) == HandleAccounts(s, actor, Follow(target));
  }

  /** With an accepted token, the thread list URL runs the list. */
  lemma ThreadListRouteRuns(s: Store, actor: Option<UserId>)
    requires Valid(s) && TokenAccepted(s, actor)
    ensures Runs(Handle(s, actor, ThreadList), Step(Community.ListThreads(s), s), v => ThreadsBody(v))
  {
    assert Handle(s, actor, ThreadList) == HandleThreads(s, actor, ThreadList);
  }

  /** With an accepted token, the thread detail URL runs the detail. */
  lemma ThreadGetRouteRuns(s: Store, actor: Option<UserId>, id: ThreadId)
    requires Valid(s) && TokenAccepted(s, actor)
    ensures Runs(Handle(s, actor, ThreadGet(id)), Step(Community.GetThread(s, id), s), v => DetailBody(v))
  {
  }

  /** With an accepted token, a POST to the thread list runs the create as
      written. */
  lemma ThreadCreateRouteRuns(s: Store, actor: Option<UserId>, input: Community.ThreadInput)
    requires Valid(s) && TokenAccepted(s, actor)
    ensures Runs(Handle(s, actor, ThreadCreate(input)), Community.CreateThreadAsWritten(s, actor, input), v => ThreadBody(v))
  {
  }

  /** With an accepted token, PUT on a thread runs the update. */
  lemma ThreadPutRouteRuns(s: Store, actor: Option<UserId>, id: ThreadId, patch: Community.ThreadPatch)
    requires Valid(s) && TokenAccepted(s, actor)
    ensures Runs(Handle(s, actor, ThreadPut(id, patch)), Community.UpdateThread(s, actor, id, patch), v => DetailBody(v))
  {
    assert Handle(s, actor, ThreadPut(id, patch)) == HandleThreadWrites(s, actor, ThreadPut(id, patch));
  }

  /** With an accepted token, DELETE on a thread runs the cascading delete. */
  lemma ThreadDeleteRouteRuns(s: Store, actor: Option<UserId>, id: ThreadId)
    requires Valid(s) && TokenAccepted(s, actor)
    ensures Runs(Handle(s, actor, ThreadDelete(id)), Community.DeleteThread(s, actor, id), (v: ()) => NoBody)
  {
    assert Handle(s, actor, ThreadDelete(id)) == HandleThreadWrites(s, actor, ThreadDelete(id));
  }

  /** With an accepted token, a POST to a thread's comments runs the comment
      create. */
  lemma CommentCreateRouteRuns(s: Store, actor: Option<UserId>, thread: ThreadId, input: Community.CommentInput)
    requires Valid(s) && TokenAccepted(s, actor)
    ensures Runs(Handle(s, actor, CommentCreate(thread, input)), Community.CreateComment(s, actor, thread, input), v => CommentBody(v))
  {
    assert Handle(s, actor, CommentCreate(thread, input)) == HandleComments(s, actor, CommentCreate(thread, input));
  }

  /** With an accepted token, DELETE on a comment runs the comment delete. */
  lemma CommentDeleteRouteRuns(s: Store, actor: Option<UserId>, comment: CommentId)
    requires Valid(s) && TokenAccepted(s, actor)
    ensures Runs(Handle(s, actor, CommentDelete(comment)), Community.DeleteComment(s, actor, comment), (v: ()) => NoBody)
  {
    assert Handle(s, actor, CommentDelete(comment)) == HandleComments(s, actor, CommentDelete(comment));
  }

  /** With an accepted token, the like URL runs the like toggle. */
  lemma LikeRouteRuns(s: Store, actor: Option<UserId>, thread: ThreadId)
    requires Valid(s) && TokenAccepted(s, actor)
    ensures Runs(Handle(s, actor, Like(thread)), Community.ToggleLike(s, actor, thread), v => LikeBody(v))
  {
    assert Handle(s, actor, Like(thread)) == HandleLike(s, actor, Like(thread));
  }

  /** The create URL as the route runs it: a titled post without content is
      created, and the stored thread has no content either way. */
  lemma CreateRouteStoresNoContent(s: Store, me: UserId, isbn: Isbn, content: Option<string>)
    requires Valid(s) && me in s.users && isbn in s.books
    ensures
      var r := Handle(s, Some(me), ThreadCreate(Community.ThreadInput(Some(isbn), Some("My Review"), content, None, None, None)));
      && r.outcome.Code() == 201
      && s.nextThreadId in r.store.threads
      && r.store.threads[s.nextThreadId].content == ""
  {
    var input := Community.ThreadInput(Some(isbn), Some("My Review"), content, None, None, None);
    ThreadCreateRouteRuns(s, Some(me), input);
  }
}
