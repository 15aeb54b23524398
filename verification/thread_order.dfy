/** The order of the thread list, `order_by('-created_at')`: every thread
    exactly once, newest first. Thread ids are enumerated from the id
    counter and then insertion-sorted on the creation timestamp. */
module ThreadOrder {
  import opened Types
  import opened Db

  ghost predicate AllIn(threads: map<ThreadId, Thread>, ids: seq<ThreadId>) {
    forall i :: 0 <= i < |ids| ==> ids[i] in threads
  }

  /** Non-increasing creation time along the sequence. */
  ghost predicate NewestFirst(threads: map<ThreadId, Thread>, ids: seq<ThreadId>)
    requires AllIn(threads, ids)
  {
    forall i, j :: 0 <= i < j < |ids| ==> threads[ids[i]].createdAt >= threads[ids[j]].createdAt
  }

  /** The ids below `n` that name a thread, in increasing order. */
  function IdsBelow(threads: map<ThreadId, Thread>, n: nat): (ids: seq<ThreadId>)
    ensures AllIn(threads, ids)
    ensures forall id :: multiset(ids)[id] == (if id in threads && id < n then 1 else 0)
  {
    if n == 0 then []
    else if n - 1 in threads then IdsBelow(threads, n - 1) + [n - 1]
    else IdsBelow(threads, n - 1)
  }

  /** Inserts `id` before the first thread that is not newer than it. */
  function InsertNewest(threads: map<ThreadId, Thread>, id: ThreadId, ids: seq<ThreadId>): (r: seq<ThreadId>)
    requires id in threads && AllIn(threads, ids) && NewestFirst(threads, ids)
    ensures AllIn(threads, r) && NewestFirst(threads, r)
    ensures multiset(r) == multiset(ids) + multiset{id}
    ensures r[0] == id || r[0] == ids[0]
  {
    if |ids| == 0 || threads[id].createdAt >= threads[ids[0]].createdAt then
      ConsNewestFirst(threads, id, ids);
      [id] + ids
    else
      var rest := InsertNewest(threads, id, ids[1..]);
      assert ids == [ids[0]] + ids[1..];
      ConsNewestFirst(threads, ids[0], rest);
      [ids[0]] + rest
  }

  /** A thread at least as new as the head of a newest-first sequence can
      go in front of it. */
  lemma ConsNewestFirst(threads: map<ThreadId, Thread>, id: ThreadId, ids: seq<ThreadId>)
    requires id in threads && AllIn(threads, ids) && NewestFirst(threads, ids)
    requires |ids| > 0 ==> threads[id].createdAt >= threads[ids[0]].createdAt
    ensures AllIn(threads, [id] + ids) && NewestFirst(threads, [id] + ids)
  {
    var r := [id] + ids;
    forall i, j | 0 <= i < j < |r|
      ensures threads[r[i]].createdAt >= threads[r[j]].createdAt
    {
      if i == 0 {
        assert r[j] == ids[j - 1];
        assert threads[ids[0]].createdAt >= threads[ids[j - 1]].createdAt;
      } else {
        assert r[i] == ids[i - 1] && r[j] == ids[j - 1];
      }
    }
  }

  /** Insertion sort on creation time, newest first. */
  function SortNewest(threads: map<ThreadId, Thread>, ids: seq<ThreadId>): (r: seq<ThreadId>)
    requires AllIn(threads, ids)
    ensures AllIn(threads, r) && NewestFirst(threads, r)
    ensures multiset(r) == multiset(ids)
  {
    if |ids| == 0 then []
    else
      assert ids == [ids[0]] + ids[1..];
      InsertNewest(threads, ids[0], SortNewest(threads, ids[1..]))
  }

  /** The list order: with every key below the id counter, each thread
      occurs exactly once, newest first. */
  function ListOrder(s: Store): (ids: seq<ThreadId>)
    requires KeysBelowCounters(s)
    ensures AllIn(s.threads, ids) && NewestFirst(s.threads, ids)
    ensures multiset(ids) == multiset(s.threads.Keys)
    ensures |ids| == |s.threads|
  {
    var ids := SortNewest(s.threads, IdsBelow(s.threads, s.nextThreadId));
    assert forall id :: multiset(ids)[id] == multiset(s.threads.Keys)[id];
    assert multiset(ids) == multiset(s.threads.Keys);
    assert |multiset(ids)| == |ids|;
    ids
  }
}
