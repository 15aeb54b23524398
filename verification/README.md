# Book community back end, modelled in Dafny

This project models the request handlers of a Django REST back end for a
book-review community. Users sign up, follow each other, browse a book
catalogue keyed by ISBN-13, and post review threads on books. Other users
like these threads and comment on them.

The database is modelled as one immutable `Store`. It holds users, a
directed follow relation, the catalogue, threads and comments, plus
id counters and a tick clock. Each view becomes a pure transition from the
store, the authenticated actor (`Option<UserId>`) and the request arguments
to a `Step`, which pairs an HTTP `Outcome` with the new store. `Outcome` has
one form for each status the views produce: 200, 201, 204, 400, 401, 403
and 404.

The store invariant `Valid` says:

- usernames are unique;
- follow edges join existing users, and no user follows themself;
- every thread's author, book and likers exist;
- every comment's author and thread exist;
- every id is below its counter.

Every writing handler keeps `Valid`. The three `on_delete=CASCADE`
deletions are given as functions, each with a lemma that it keeps `Valid`.

Modules, one file each:

- `Types` (types.dfy): ids, `Option`, `Outcome`.
- `Db` (store.dfy): records, the `Store` datatype, the invariant, actor
  resolution.
- `Cascade` (cascade.dfy): deleting a thread, a user or a book.
- `Cardinality` (cardinality.dfy): counting one view per key.
- `Books` (books.dfy): the catalogue endpoints and the ingestion upsert.
- `Accounts` (accounts.dfy): signup, profile, follow, and the user
  projections.
- `ThreadOrder` (thread_order.dfy): the newest-first list order.
- `CommunitySerializers` (community_serializers.dfy): the thread-list,
  thread-detail and comment projections.
- `Community` (community.dfy): the thread, comment and like handlers.
- `Routes` (routes.dfy): the URL table as one dispatcher over the
  handlers as written, including the thread create as written (see
  "## Findings").
- `Scenarios` (scenarios.dfy): the two integration-test flows, stated for
  every valid store, through the handlers as written.

### Behaviour worth noting

- **Signup response.** The signup response is `{username, followings: []}`:
  the creation serializer's fields are `username`, a write-only `password`
  and a read-only `followings`, and it has no `id` field.
- **Stale tokens.** A token whose user no longer exists is refused with 401
  by the authentication layer on every route, public ones included, before
  any view runs. `Routes.Handle` answers so; the handlers themselves read
  an actor id that names no user as anonymous.
- **Order of checks.** The handlers check things in this order.
  - Thread create: 401, then the book lookup (404), then validation (400).
  - Thread PUT and DELETE: the thread lookup (404) comes before
    authentication (401), then ownership (403).
  - Comment create, comment delete, like, profile and follow are declared
    `IsAuthenticated`, so 401 comes before any lookup.

## Model

| member | source | states |
|---|---|---|
| Db.Valid | back-django/community/models.py:5-20 | The invariant every handler keeps. Most of it comes from the keys and foreign keys: usernames are unique; every thread's author, book and likers exist; every comment's author and thread exist; the like-set is a set, so nobody likes a thread twice; a book's key is its ISBN-13, so there is at most one row per ISBN. Follow edges join existing users because their ends are foreign keys. That the two ends differ is not a key constraint: it holds because the follow view refuses a self-follow and signup adds no edges. |
| Db.Actor | back-django/community/views.py:19-20 | A request is authenticated exactly when it carries an actor id that names an existing user. |
| Cascade.DeleteThread | back-django/community/models.py:20 | Deleting a thread removes exactly that thread and exactly the comments whose thread it is. Every other row is unchanged. |
| Cascade.DeleteThreadKeepsValid | back-django/community/models.py:18-20 | A thread deletion keeps every invariant and leaves no comment pointing at the deleted thread. |
| Cascade.DeleteUser | back-django/community/models.py:6-20 | Deleting a user removes exactly that user, their threads, their comments, the comments on their threads, and exactly the follow edges that touch them. Every other user, book and comment is unchanged, and every surviving thread is unchanged except that the user leaves its like-set. |
| Cascade.DeleteUserKeepsValid | back-django/community/models.py:5-20 | A user deletion keeps every invariant. No remaining thread, comment, like or follow edge refers to the user. |
| Cascade.DeleteBook | back-django/community/models.py:7-20 | Deleting a book removes exactly that catalogue row, exactly its threads and exactly the comments on them. Every other book, thread and comment, the users and the follow edges are unchanged. |
| Cascade.DeleteBookKeepsValid | back-django/community/models.py:5-20 | A book deletion keeps every invariant. No remaining thread refers to the book. |
| Books.BookList | back-django/books/views.py:10-13 | The book list always answers 200. |
| Books.BookDetail | back-django/books/views.py:17-20 | Answers 200 exactly when the ISBN is a catalogue key, with the view of that row; otherwise 404. |
| Books.BookListMatchesDetail | back-django/books/views.py:10-20 | A view is listed exactly when the detail endpoint returns it for its own ISBN. The list has one entry per catalogue row, so it holds every book and no other. |
| Books.UpsertBook | back-django/populate_books.py:48-57 | The upsert leaves the key set equal to the old keys plus the ISBN, stores the payload under that ISBN, and keeps every other row. `created` holds exactly when the ISBN was new. Nothing but the books table changes: users, follows, threads, comments, the clock and the id counters stay as they were. |
| Books.UpsertIdempotent | back-django/populate_books.py:48-57 | Repeating the same upsert changes nothing and reports "updated". An upsert keeps the invariant. |
| Accounts.Summary | back-django/accounts/serializers.py:21-24 | The user summary is exactly `{id, username}` (the type has no other field), carrying the user's id and stored username. |
| Accounts.UserByName | back-django/accounts/views.py:22 | Finds the user with a given username, or reports that no user has it. |
| Accounts.Signup | back-django/accounts/serializers.py:6-19 | 201 exactly when both username and password are present and non-blank and the username is free; otherwise 400 and no change. On success, exactly one user is added under a fresh id with that username. The response is `{username, followings: {}}`, the new user has no edges, and nothing else changes. |
| Accounts.SignupIgnoresFollowingsAndHidesPassword | back-django/accounts/serializers.py:8-14 | A client-sent `followings` has no effect. Which (non-blank) password was sent does not change the response. |
| Accounts.ProfileOf | back-django/accounts/serializers.py:26-32 | The profile lists exactly the summaries of the user's followers and of the users they follow. |
| Accounts.Profile | back-django/accounts/views.py:19-24 | 401 without an actor. 404 when no user has the username. Otherwise 200 with that user's profile. |
| Accounts.Follow | back-django/accounts/views.py:26-39 | Checks in order: 401, 404 for a missing target, 400 for a self-follow, each with no change. Otherwise the edge (actor, target) is flipped and `followed` says whether it now exists. Every other edge and all other data stay the same. |
| Accounts.FollowTwiceRestores | back-django/accounts/views.py:32-37 | Two identical follow requests restore the original store. When the first succeeds, the second gives the opposite answer. |
| Accounts.SelfFollowRejected | back-django/accounts/views.py:31-39 | A self-follow is always 400 and never creates a self-edge. |
| Accounts.FollowShowsInProfile | back-django/community/tests.py:103-114 | After a follow, the follower appears in the followee's profile exactly when the answer was `followed == true`. |
| ThreadOrder.SortNewest | back-django/community/views.py:14 | The sorted sequence is a permutation of its input with non-increasing creation time. |
| ThreadOrder.ListOrder | back-django/community/views.py:14 | The list order holds every thread exactly once, newest first. |
| CommunitySerializers.CommentViewOf | back-django/community/serializers.py:6-12 | A comment view carries every comment column: its id, thread, content and timestamps, with the author embedded as the `{id, username}` summary. |
| CommunitySerializers.SummaryOf | back-django/community/serializers.py:14-23 | A list entry carries the thread's id, title and rating. Its `like_count` is the size of the like-set. Its `comment_count` is the number of comments on the thread. Its `book_title` is the referenced book's title. |
| CommunitySerializers.DetailOf | back-django/community/serializers.py:25-34 | The detail carries the thread's title, content, rating, both timestamps and like-set; its author's summary; its book's full view; and a `like_count` equal to the size of the like-set. |
| CommunitySerializers.DetailEmbedsExactlyItsComments | back-django/community/serializers.py:28-29 | The detail embeds a comment view exactly when that comment's thread is this one. The embedded list's length equals the list entry's `comment_count`. |
| Community.ListThreads | back-django/community/views.py:13-16 | The list is always 200. Its ids are a permutation of the thread ids, each entry is that thread's list projection, and creation time is non-increasing along the list. |
| Community.CreateThread | back-django/community/views.py:18-30 | The corrected create (see "## Findings"). Checks in order: 401, 404 for an unknown `book_isbn13`, 400 for a blank title or content, each with no change. Otherwise exactly one thread is added. Its author is the actor and its book the resolved ISBN. Its rating is as sent, defaulting to 0 with no range check. Its timestamps are the current tick, and no one likes it yet. The response is its list projection, with both counts at zero. |
| Community.CreateThreadAsWritten | back-django/community/views.py:27-29 | The create as written: checks in order 401, 404 for an unknown `book_isbn13`, 400 for a blank title, each with no change. Content is neither required nor stored: the one new thread has an empty content. Otherwise it matches the corrected create. |
| Community.CreateDropsContent | back-django/community/serializers.py:22 | Concrete counterexample: for a body with content "Great book!", the as-written create stores "" and the corrected create stores the content. |
| Community.CreateIgnoresClientOwnerAndBook | back-django/community/serializers.py:23 | Client-sent `user` and `book` fields have no effect on a create, both for the corrected create and for the create as written. |
| Community.GetThread | back-django/community/views.py:35-39 | 200 with the detail projection exactly when the id names a thread; otherwise 404. |
| Community.GuardThreadWrite | back-django/community/views.py:35-45 | The write guard gives 404 for a missing thread, then 401 without an actor, then 403 for anyone but the author. It passes exactly for the author. |
| Community.UpdateThread | back-django/community/views.py:47-51 | After the guard, 400 if a sent title or content is blank; every error leaves the store unchanged. A success changes only the sent title, content and rating. Author, book, likes, `created_at`, comments and other threads stay unchanged, and `updated_at` becomes the current tick, later than its old value; the clock then moves past it. The response is the new detail. |
| Community.UpdateIgnoresReadOnlyFields | back-django/community/serializers.py:26-34 | Client-sent `user`, `book` and `like_users` have no effect on a PUT. |
| Community.DeleteThread | back-django/community/views.py:53-55 | After the guard, the author's delete answers 204 and is exactly the thread cascade. Every refusal leaves the store unchanged. |
| Community.DeleteThenGetNotFound | back-django/community/tests.py:83-90 | After the author's delete, the thread reads as 404. Its comments are gone, and every other thread and comment is untouched. |
| Community.CreateComment | back-django/community/views.py:57-64 | Checks in order: 401, 404 for an unknown thread, 400 for blank content, each with no change. Otherwise exactly one comment is added, with the actor as author, the URL's thread, the sent content, and both timestamps set to the current tick, after which the clock moves on. Nothing else changes, and the response is its view. |
| Community.CreateCommentIgnoresClientFields | back-django/community/serializers.py:6-12 | Client-sent `user` and `thread` fields have no effect on a comment. |
| Community.CommentCountFollowsCreate | back-django/community/serializers.py:18 | A new comment raises its own thread's `comment_count` by one and leaves every other thread's count unchanged. |
| Community.DeleteComment | back-django/community/views.py:66-74 | Checks in order: 401, 404, then 403 for a non-author, each with no change. The author's delete removes exactly that comment and nothing else. |
| Community.ToggleLike | back-django/community/views.py:76-86 | Checks in order: 401, then 404, with no change. Otherwise only the actor's membership in that thread's like-set flips. `liked` says whether the actor is now in the set, `count` is the new set size, and all other data stays the same. |
| Community.LikeTwiceRestores | back-django/community/views.py:80-85 | Two identical like requests restore the original store. The second answers the opposite `liked` and the original count. |
| Community.LikeCountMatchesProjections | back-django/community/serializers.py:17 | The count the toggle answers with is the `like_count` both the list entry and the detail show afterwards. |
| Routes.Handle | back-django/community/urls.py:4-10 | A token whose user does not exist is answered 401 on every route with no change. Every route keeps the invariant and never moves the clock back. GET routes, every 4xx answer and anonymous requests other than signup leave the store unchanged. Which handler each route runs is stated by the `...RouteRuns` lemmas below. |
| Routes.BookRoutesAreReadOnly | back-django/books/urls.py:4-7 | Neither book route changes the store. With an accepted token, the list answers with the whole catalogue. The detail runs `Books.BookDetail`: the same status, 200 exactly for a catalogue key, and that row's view as the body. |
| Routes.AccountRoutesRun | back-django/accounts/views.py:11-39 | With an accepted token, the signup, profile and follow routes run signup, profile and follow. The store, the status code and the body of a 200 or 201 are exactly those of that handler. |
| Routes.ThreadListRouteRuns | back-django/community/urls.py:5 | With an accepted token, GET on the thread list runs the list handler with no change to the store. |
| Routes.ThreadGetRouteRuns | back-django/community/urls.py:6 | With an accepted token, GET on a thread runs the detail handler with no change to the store. |
| Routes.ThreadCreateRouteRuns | back-django/community/urls.py:5 | With an accepted token, POST on the thread list runs the create as written: same store, same status and the same summary body. |
| Routes.ThreadPutRouteRuns | back-django/community/urls.py:6 | With an accepted token, PUT on a thread runs the update: same store, status and detail body. |
| Routes.ThreadDeleteRouteRuns | back-django/community/urls.py:6 | With an accepted token, DELETE on a thread runs the cascading delete: same store and status. |
| Routes.CommentCreateRouteRuns | back-django/community/urls.py:7 | With an accepted token, POST on a thread's comments runs the comment create: same store, status and comment body. |
| Routes.CommentDeleteRouteRuns | back-django/community/urls.py:8 | With an accepted token, DELETE on a comment runs the comment delete: same store and status. |
| Routes.LikeRouteRuns | back-django/community/urls.py:9 | With an accepted token, POST on a thread's likes runs the like toggle: same store, status and body. |
| Routes.CreateRouteStoresNoContent | back-django/community/views.py:27-30 | Through the URL table, a signed-in POST naming a catalogued book and title "My Review" is answered 201. The thread stored under the next id has empty content, whatever content was sent. |
| Scenarios.PostThenRead | back-django/community/tests.py:45-62 | Through the create as written, a post with a title on a catalogued book is created, reads back with its title, and has no likes or comments (and an empty content). |
| Scenarios.FirstLike | back-django/community/tests.py:64-69 | The first like of an unliked thread answers `{liked: true, count: 1}`. |
| Scenarios.FirstComment | back-django/community/tests.py:71-81 | After the first comment on a thread, the detail embeds exactly one comment, with the sent content. |
| Scenarios.CommunityFlow | back-django/community/tests.py:35-90 | Through the handlers as written, the full flow holds for every valid store with two distinct users and a book: post, read, like (count 1), comment (one embedded comment), author's delete (204), then 404. |
| Scenarios.FollowFlow | back-django/community/tests.py:92-118 | Following a user not yet followed answers `true` and lists the follower in the followee's profile. Following again answers `false` and restores the store. |

## Left out

- **HTTP methods the views reject.** DRF answers 405 for these. The model's request type has only the accepted routes.
- **Authentication internals.** JWT issuance and validation, and password hashing, are left out. The actor is a parameter, and the stored credential is an opaque value supplied by the caller of signup.
- **Timestamps.** Real timestamps become a tick counter, bumped by every thread or comment insert and every thread update, so "newer" means "created at a later tick".
- **Blank fields.** A field counts as blank when it is empty. DRF's whitespace trimming is not modelled.
- **Field validation.** `max_length`, URL format, the username character rules and DRF's type coercion are library behaviour. A rating is any integer.
- Accounts.Signup: stores, echoes and checks uniqueness on the username exactly as sent. `create_user` (accounts/serializers.py:18) first applies Django's `normalize_username`, which is Unicode NFKC, so the source stores and returns the normalized name: a fullwidth "ａｄｍｉｎ" is stored as "admin". The serializer's uniqueness check runs on the raw name, so a name that collides with an existing one only after normalization passes that check and then fails the database's unique constraint with a server error, not a 400. Unicode normalization is library behaviour and strings here are plain character sequences, so neither is modelled.
- **Error bodies.** Only the status is modelled. The 403 detail message and the self-follow message are not.
- **Concurrency.** The toggle's read-then-write and transaction semantics are left out; the model is sequential.
- **Catalogue ingestion.** The network fetch, the environment handling and the skip of items with no ISBN belong to the ingestion script's loop. Only the upsert is modelled.
- **Admin and front end.** The admin configuration and the Vue front end are not modelled.
- **Accounts model and URLs.** accounts/models.py and accounts/urls.py are not part of this model. The follow relation is taken to be a directed many-to-many whose reverse is `followers`, and the account URLs are written as the tests use them. The tests never call signup, so its URL `accounts/signup/` is an assumption.
- **Book serializer.** books/serializers.py is not part of this model. A book view is assumed to expose every column of the book model.
- **Orders inside projections.** The profile's follower lists, the detail's comments and the book list are sets, because the source fixes no order for them.
- Books.BookList: states only that the list always answers; that it holds every book and no other is stated by `Books.BookListMatchesDetail`.

## Findings

| source | as written | input that shows it | evidently intended | confidence | as-written member | corrected member |
|---|---|---|---|---|---|---|
| back-django/community/views.py:27-29 | The thread create parses the body with the list serializer. That serializer's fields (serializers.py:22) have no `content`, so the content is neither validated nor saved, and the row gets an empty content. | An authenticated POST with an existing `book_isbn13`, title "My Review", content "Great book!" and rating 5 is answered 201, but the stored thread's content is "". | The content sent is validated as required and stored. The URL table and the test flows use the as-written create, since that is what the route runs. | not executed | Community.CreateThreadAsWritten | Community.CreateThread |
