/** The two end-to-end flows the back end's integration tests walk through,
    stated for every valid store with two distinct users and a book, rather
    than for one fixture. */
module Scenarios {
  import opened Types
  import opened Db
  import opened CommunitySerializers
  import Accounts
  import Community

  /** A review's life, through the handlers as written: the first user
      posts it, the second reads it, likes it (the first like, so the count
      is one), and comments on it, after which the detail embeds exactly
      that comment; the author then deletes it and it reads as 404. */
  lemma CommunityFlow(s: Store, u1: UserId, u2: UserId, isbn: Isbn)
    requires Valid(s) && u1 in s.users && u2 in s.users && u1 != u2 && isbn in s.books
    ensures
      var r1 := Community.CreateThreadAsWritten(s, Some(u1),
        Community.ThreadInput(Some(isbn), Some("My Review"), Some("Great book!"), Some(5), None, None));
      && r1.outcome.Created?
      && var id := r1.outcome.value.id;
      && Valid(r1.store)
      && Community.GetThread(r1.store, id).Ok?
      && Community.GetThread(r1.store, id).value.title == "My Review"
      && var r2 := Community.ToggleLike(r1.store, Some(u2), id);
      && r2.outcome == Ok(Community.LikeResult(true, 1))
      && Valid(r2.store)
      && var r3 := Community.CreateComment(r2.store, Some(u2), id, Community.CommentInput(Some("Nice review!"), None, None));
      && r3.outcome.Created?
      && Valid(r3.store)
      && Community.GetThread(r3.store, id).Ok?
      && |Community.GetThread(r3.store, id).value.comments| == 1
      && (forall v :: v in Community.GetThread(r3.store, id).value.comments ==> v.content == "Nice review!")
      && var r4 := Community.DeleteThread(r3.store, Some(u1), id);
      && r4.outcome == NoContent
      && Community.GetThread(r4.store, id) == NotFound
  {
    var body := Community.ThreadInput(Some(isbn), Some("My Review"), Some("Great book!"), Some(5), None, None);
    PostThenRead(s, u1, body);
    var r1 := Community.CreateThreadAsWritten(s, Some(u1), body);
    var id := r1.outcome.value.id;
    FirstLike(r1.store, u2, id);
    var r2 := Community.ToggleLike(r1.store, Some(u2), id);
    FirstComment(r2.store, u2, id, "Nice review!");
    var r3 := Community.CreateComment(r2.store, Some(u2), id, Community.CommentInput(Some("Nice review!"), None, None));
    Community.DeleteThenGetNotFound(r3.store, u1, id);
  }

  /** A post by a signed-in user on a catalogued book with a title is
      created, reads back with its title, and starts with no likes and no
      comments. The create as written stores no content, whatever was sent;
      the flow never reads the content back. */
  lemma PostThenRead(s: Store, me: UserId, body: Community.ThreadInput)
    requires Valid(s) && me in s.users
    requires Community.BookResolves(s, body.bookIsbn13) && Community.Supplied(body.title)
    ensures
      var r := Community.CreateThreadAsWritten(s, Some(me), body);
      && r.outcome.Created?
      && var id := r.outcome.value.id;
      && Valid(r.store) && id in r.store.threads && r.store.users == s.users
      && Community.GetThread(r.store, id).Ok?
      && Community.GetThread(r.store, id).value.title == body.title.value
      && r.store.threads[id].owner == me
      && r.store.threads[id].likeUsers == {}
      && r.store.threads[id].content == ""
      && CommentsOf(r.store, id) == {}
  {
    var r := Community.CreateThreadAsWritten(s, Some(me), body);
    var id := r.outcome.value.id;
    forall c | c in r.store.comments
      ensures r.store.comments[c].thread != id
    {
      assert CommentWellFormed(s, s.comments[c]);
    }
  }

  /** The first like of a thread nobody likes answers `liked` with a count
      of one, and leaves the comments and the author alone. */
  lemma FirstLike(s: Store, me: UserId, id: ThreadId)
    requires Valid(s) && me in s.users && id in s.threads && s.threads[id].likeUsers == {}
    ensures
      var r := Community.ToggleLike(s, Some(me), id);
      && r.outcome == Ok(Community.LikeResult(true, 1))
      && Valid(r.store) && id in r.store.threads && r.store.users == s.users
      && r.store.threads[id].owner == s.threads[id].owner
      && CommentsOf(r.store, id) == CommentsOf(s, id)
  {
    var r := Community.ToggleLike(s, Some(me), id);
    var likes' := r.store.threads[id].likeUsers;
    assert likes' == {me} by {
      assert me in likes' && likes' - {me} == {};
    }
  }

  /** The first comment on a thread embeds exactly that comment, with the
      content sent, in the thread's detail. */
  lemma FirstComment(s: Store, me: UserId, id: ThreadId, text: string)
    requires Valid(s) && me in s.users && id in s.threads && CommentsOf(s, id) == {} && !Blank(text)
    ensures
      var r := Community.CreateComment(s, Some(me), id, Community.CommentInput(Some(text), None, None));
      && r.outcome.Created?
      && Valid(r.store) && id in r.store.threads
      && r.store.threads[id].owner == s.threads[id].owner
      && Community.GetThread(r.store, id).Ok?
      && |Community.GetThread(r.store, id).value.comments| == 1
      && (forall v :: v in Community.GetThread(r.store, id).value.comments ==> v.content == text)
  {
    var r := Community.CreateComment(s, Some(me), id, Community.CommentInput(Some(text), None, None));
    var s' := r.store;
    var cid := r.outcome.value.id;
    assert CommentsOf(s', id) == {cid} by {
      forall c | c in s'.comments
        ensures c in CommentsOf(s', id) <==> c == cid
      {
        if c != cid {
          assert c in s.comments && s'.comments[c] == s.comments[c];
        }
      }
    }
    CommentsDetailCollapse(s', id, cid);
  }

  /** A detail whose thread has exactly one comment embeds exactly that
      comment's view. */
  lemma CommentsDetailCollapse(s: Store, id: ThreadId, cid: CommentId)
    requires Valid(s) && id in s.threads && CommentsOf(s, id) == {cid}
    ensures cid in s.comments
    ensures DetailOf(s, id).comments == {CommentViewOf(s, cid)}
  {
    DetailEmbedsExactlyItsComments(s, id);
    assert cid in CommentsOf(s, id);
  }

  /** Following: the first follow of a user not yet followed answers
      `followed == true` and lists the follower in the followee's profile;
      the second answers `false` and leaves the store as it was. */
  lemma FollowFlow(s: Store, u1: UserId, u2: UserId)
    requires Valid(s) && u1 in s.users && u2 in s.users && u1 != u2 && (u1, u2) !in s.follows
    ensures
      var r1 := Accounts.Follow(s, Some(u1), u2);
      var p := Accounts.Profile(r1.store, Some(u1), s.users[u2].username);
      var r2 := Accounts.Follow(r1.store, Some(u1), u2);
      && r1.outcome == Ok(true)
      && p.Ok? && Accounts.UserSummary(u1, s.users[u1].username) in p.value.followers
      && r2.outcome == Ok(false)
      && r2.store == s
  {
    Accounts.FollowShowsInProfile(s, u1, u2);
    Accounts.FollowTwiceRestores(s, Some(u1), u2);
  }
}
