/** Row deletion with the `on_delete=CASCADE` semantics of the thread and
    comment foreign keys: removing a row removes every row that refers to
    it, transitively, and removes the row from the many-to-many join tables
    (follow edges, like-sets) it took part in. */
module Cascade {
  import opened Types
  import opened Db

  /** A thread's removal takes its comments with it; its like-set lives in
      the thread record and goes too. */
  function DeleteThread(s: Store, id: ThreadId): (r: Store)
    ensures id !in r.threads
    ensures forall t :: t in r.threads <==> t in s.threads && t != id
    ensures forall t :: t in r.threads ==> r.threads[t] == s.threads[t]
    ensures forall c :: c in r.comments <==> c in s.comments && s.comments[c].thread != id
    ensures forall c :: c in r.comments ==> r.comments[c] == s.comments[c]
    ensures r.users == s.users && r.follows == s.follows && r.books == s.books
    ensures r.clock == s.clock
  {
    s.(threads := s.threads - {id},
       comments := (map c | c in s.comments && s.comments[c].thread != id :: s.comments[c]))
  }

  /** A user's removal takes their threads, their comments and every
      comment on their threads, and drops them from follow edges and
      like-sets. */
  function DeleteUser(s: Store, uid: UserId): (r: Store)
    ensures uid !in r.users
    ensures forall t :: t in r.threads <==> t in s.threads && s.threads[t].owner != uid
    ensures forall c :: c in r.comments ==> c in s.comments && r.comments[c] == s.comments[c]
    ensures forall c :: c in r.comments <==>
      c in s.comments && s.comments[c].owner != uid && s.comments[c].thread in r.threads
    ensures r.users == s.users - {uid}
    ensures forall e :: e in r.follows <==> e in s.follows && e.0 != uid && e.1 != uid
    ensures forall t :: t in r.threads ==>
      r.threads[t] == s.threads[t].(likeUsers := s.threads[t].likeUsers - {uid})
    ensures r.books == s.books && r.clock == s.clock
  {
    var threads := map t | t in s.threads && s.threads[t].owner != uid ::
      s.threads[t].(likeUsers := s.threads[t].likeUsers - {uid});
    s.(users := s.users - {uid},
       follows := (set e | e in s.follows && e.0 != uid && e.1 != uid),
       threads := threads,
       comments := map c | c in s.comments && s.comments[c].owner != uid && s.comments[c].thread in threads :: s.comments[c])
  }

  /** A book's removal takes its threads and, through them, their comments. */
  function DeleteBook(s: Store, isbn: Isbn): (r: Store)
    ensures r.books == s.books - {isbn}
    ensures forall t :: t in r.threads <==> t in s.threads && s.threads[t].book != isbn
    ensures forall t :: t in r.threads ==> r.threads[t] == s.threads[t]
    ensures forall c :: c in r.comments <==> c in s.comments && s.comments[c].thread in r.threads
    ensures forall c :: c in r.comments ==> r.comments[c] == s.comments[c]
    ensures r.users == s.users && r.follows == s.follows && r.clock == s.clock
  {
    var threads := map t | t in s.threads && s.threads[t].book != isbn :: s.threads[t];
    s.(books := s.books - {isbn},
       threads := threads,
       comments := map c | c in s.comments && s.comments[c].thread in threads :: s.comments[c])
  }

  /** After a thread's deletion no comment refers to it, and the store is
      still referentially intact. */
  lemma DeleteThreadKeepsValid(s: Store, id: ThreadId)
    requires Valid(s)
    ensures Valid(DeleteThread(s, id))
    ensures CommentsOf(DeleteThread(s, id), id) == {}
  {
    var r := DeleteThread(s, id);
    forall t | t in r.threads
      ensures ThreadWellFormed(r, r.threads[t])
    {
      assert ThreadWellFormed(s, s.threads[t]);
    }
    forall c | c in r.comments
      ensures CommentWellFormed(r, r.comments[c])
    {
      assert CommentWellFormed(s, s.comments[c]);
    }
  }

  /** After a user's deletion nothing refers to them: no thread, comment,
      like or follow edge; and the store is still referentially intact. */
  lemma DeleteUserKeepsValid(s: Store, uid: UserId)
    requires Valid(s)
    ensures Valid(DeleteUser(s, uid))
    ensures forall t :: t in DeleteUser(s, uid).threads ==>
      DeleteUser(s, uid).threads[t].owner != uid && uid !in DeleteUser(s, uid).threads[t].likeUsers
    ensures forall c :: c in DeleteUser(s, uid).comments ==> DeleteUser(s, uid).comments[c].owner != uid
    ensures forall e :: e in DeleteUser(s, uid).follows ==> e.0 != uid && e.1 != uid
  {
    var r := DeleteUser(s, uid);
    forall t | t in r.threads
      ensures ThreadWellFormed(r, r.threads[t])
    {
      assert ThreadWellFormed(s, s.threads[t]);
    }
    forall c | c in r.comments
      ensures CommentWellFormed(r, r.comments[c])
    {
      assert CommentWellFormed(s, s.comments[c]);
    }
  }

  /** After a book's deletion no thread refers to it, no comment refers to
      a removed thread, and the store is still referentially intact. */
  lemma DeleteBookKeepsValid(s: Store, isbn: Isbn)
    requires Valid(s)
    ensures Valid(DeleteBook(s, isbn))
    ensures forall t :: t in DeleteBook(s, isbn).threads ==> DeleteBook(s, isbn).threads[t].book != isbn
  {
    var r := DeleteBook(s, isbn);
    forall t | t in r.threads
      ensures ThreadWellFormed(r, r.threads[t])
    {
      assert ThreadWellFormed(s, s.threads[t]);
    }
    forall c | c in r.comments
      ensures CommentWellFormed(r, r.comments[c])
    {
      assert CommentWellFormed(s, s.comments[c]);
    }
  }
}
