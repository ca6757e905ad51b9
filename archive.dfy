/** The archive merger (`update_output_file`): a batch of freshly scraped
    threads is reconciled with the threads already in the archive. */
module Archive {
  import opened Wrappers
  import opened Instants
  import opened Records

  // ------------------------------------------------------- specification

  /** The posts of `incoming` whose id is not in `seen`, in their order. */
  function FreshPosts(seen: set<string>, incoming: seq<Post>): (r: seq<Post>)
    ensures |r| <= |incoming|
    ensures forall p :: p in r <==> p in incoming && p.postId !in seen
  {
    if incoming == [] then []
    else
      var last := incoming[|incoming| - 1];
      FreshPosts(seen, incoming[..|incoming| - 1]) + (if last.postId in seen then [] else [last])
  }

  /** An existing thread merged with its incoming version: the incoming title,
      and at the end of its posts those incoming posts whose id it lacked. */
  function MergeThread(t: ThreadRecord, incoming: ThreadRecord): (m: ThreadRecord)
    ensures m.threadId == t.threadId && m.url == t.url && m.initialAuthor == t.initialAuthor
    ensures m.title == incoming.title
    ensures |m.posts| >= |t.posts| && m.posts[..|t.posts|] == t.posts
    ensures forall p :: p in m.posts[|t.posts|..] <==> p in incoming.posts && p.postId !in PostIds(t.posts)
  {
    var added := FreshPosts(PostIds(t.posts), incoming.posts);
    assert (t.posts + added)[|t.posts|..] == added;
    t.(title := incoming.title, posts := t.posts + added)
  }

  /** Position of the last thread with id `id`: the one a dictionary built
      from the threads in order keeps for that id. */
  function LastIndex(ts: seq<ThreadRecord>, id: string): (i: nat)
    requires id in ThreadIds(ts)
    ensures i < |ts| && ts[i].threadId == id
    ensures forall j :: i < j < |ts| ==> ts[j].threadId != id
  {
    var last := ts[|ts| - 1];
    if last.threadId == id then |ts| - 1
    else
      assert id in ThreadIds(ts[..|ts| - 1]) by {
        var t :| t in ts && t.threadId == id;
        var k :| 0 <= k < |ts| && ts[k] == t;
        assert ts[..|ts| - 1][k] == t;
      }
      LastIndex(ts[..|ts| - 1], id)
  }

  /** The thread at position `i` of `archive` after the batch is merged in:
      only the thread the lookup finds for an incoming id is touched. */
  function MergedAt(archive: seq<ThreadRecord>, batch: seq<ThreadRecord>, i: nat): (r: ThreadRecord)
    requires i < |archive|
    ensures r.threadId == archive[i].threadId && r.url == archive[i].url
    ensures r.initialAuthor == archive[i].initialAuthor
    ensures |r.posts| >= |archive[i].posts| && r.posts[..|archive[i].posts|] == archive[i].posts
    ensures r != archive[i] ==> archive[i].threadId in ThreadIds(batch)
  {
    var id := archive[i].threadId;
    assert id in ThreadIds(archive) by { assert archive[i] in archive; }
    if id in ThreadIds(batch) && LastIndex(archive, id) == i
    then MergeThread(archive[i], batch[LastIndex(batch, id)])
    else archive[i]
  }

  /** The incoming threads whose id is not in the archive, in batch order. */
  function NewThreads(archive: seq<ThreadRecord>, batch: seq<ThreadRecord>): (r: seq<ThreadRecord>)
    ensures |r| <= |batch|
    ensures forall t :: t in r <==> t in batch && t.threadId !in ThreadIds(archive)
  {
    if batch == [] then []
    else
      var last := batch[|batch| - 1];
      NewThreads(archive, batch[..|batch| - 1])
        + (if last.threadId in ThreadIds(archive) then [] else [last])
  }

  /** The existing threads, each in its place, merged where the batch names them. */
  function Updated(archive: seq<ThreadRecord>, batch: seq<ThreadRecord>): (r: seq<ThreadRecord>)
    ensures |r| == |archive| && forall i :: 0 <= i < |archive| ==> r[i] == MergedAt(archive, batch, i)
  {
    seq(|archive|, i requires 0 <= i < |archive| => MergedAt(archive, batch, i))
  }

  /** The archive after `update_output_file`: the existing threads, each in
      its place, merged where the batch names them; then the new threads. */
  function Merged(archive: seq<ThreadRecord>, batch: seq<ThreadRecord>): (r: seq<ThreadRecord>)
    ensures |r| == |archive| + |NewThreads(archive, batch)|
    ensures forall i :: 0 <= i < |archive| ==> r[i] == MergedAt(archive, batch, i)
    ensures r[|archive|..] == NewThreads(archive, batch)
  {
    assert (Updated(archive, batch) + NewThreads(archive, batch))[|archive|..] == NewThreads(archive, batch);
    Updated(archive, batch) + NewThreads(archive, batch)
  }

  // --------------------------------------------------------------- the file

  /** `scraped_data.json` as loaded: when it is missing or unreadable the
      source starts from an empty archive of the forum "PortalAnaliz.pl". */
  class ArchiveFile {
    /** `scraped_timestamp_utc`; `None` stands for the empty string. */
    var scrapedAt: Option<Instant>
    var sourceForum: string
    var threads: seq<ThreadRecord>

    constructor Empty()
      ensures scrapedAt == None && sourceForum == "PortalAnaliz.pl" && threads == []
    {
      scrapedAt := None;
      sourceForum := "PortalAnaliz.pl";
      threads := [];
    }

    /** Merges a batch keyed by thread id (hence unique ids) and stamps the
        archive with `now`. */
    method UpdateWith(batch: seq<ThreadRecord>, now: Instant)
      requires UniqueThreadIds(batch)
      modifies this
      ensures threads == Merged(old(threads), batch)
      ensures scrapedAt == Some(now) && sourceForum == old(sourceForum)
    {
      var archive := threads;
      var k := 0;
      while k < |batch|
        invariant k <= |batch|
        invariant threads == Merged(archive, batch[..k])
        invariant sourceForum == old(sourceForum)
      {
        var incoming := batch[k];
        UniqueBefore(batch, k);
        assert batch[..k + 1] == batch[..k] + [incoming];
        // `existing_threads` maps each id to the last archived thread with it
        if incoming.threadId in ThreadIds(archive) {
          MergedAppendExisting(archive, batch[..k], incoming);
          var j := LastIndex(archive, incoming.threadId);
          var t := threads[j];
          var posts := AppendNewPosts(t.posts, incoming.posts);
          threads := threads[j := t.(title := incoming.title, posts := posts)];
        } else {
          MergedAppendNew(archive, batch[..k], incoming);
          threads := threads + [incoming];
        }
        k := k + 1;
      }
      assert batch[..k] == batch;
      scrapedAt := Some(now);
    }
  }

  /** The inner loop of the merge: appends to `posts` each incoming post
      whose id was not among the ids of `posts` before the loop. */
  method AppendNewPosts(posts: seq<Post>, incoming: seq<Post>) returns (r: seq<Post>)
    ensures r == posts + FreshPosts(PostIds(posts), incoming)
  {
    var seen := set p | p in posts :: p.postId;
    r := posts;
    var n := 0;
    while n < |incoming|
      invariant n <= |incoming|
      invariant r == posts + FreshPosts(seen, incoming[..n])
    {
      assert incoming[..n + 1][..n] == incoming[..n];
      if incoming[n].postId !in seen {
        r := r + [incoming[n]];
      }
      n := n + 1;
    }
    assert incoming[..n] == incoming;
  }

  // ------------------------------------------------------------ properties

  /** An id of a batch with unique ids is not among the ids before it. */
  lemma UniqueBefore(batch: seq<ThreadRecord>, k: nat)
    requires UniqueThreadIds(batch) && k < |batch|
    ensures batch[k].threadId !in ThreadIds(batch[..k])
  {
  }

  /** The last position of an id after one more thread. */
  lemma LastIndexAppend(ts: seq<ThreadRecord>, t: ThreadRecord, id: string)
    requires id in ThreadIds(ts + [t])
    ensures t.threadId != id ==> id in ThreadIds(ts)
    ensures LastIndex(ts + [t], id) == if t.threadId == id then |ts| else LastIndex(ts, id)
  {
    ThreadIdsAppend(ts, t);
    assert (ts + [t])[..|ts|] == ts;
  }

  /** Merging one more incoming thread `x`, whose id is new to the batch,
      changes at archive position `i` only the thread the lookup finds for
      the id of `x`, which was untouched. */
  lemma MergedAtAppend(archive: seq<ThreadRecord>, before: seq<ThreadRecord>, x: ThreadRecord, i: nat)
    requires i < |archive| && x.threadId !in ThreadIds(before)
    ensures archive[i].threadId == x.threadId ==> MergedAt(archive, before, i) == archive[i]
    ensures MergedAt(archive, before + [x], i) ==
      if archive[i].threadId == x.threadId && i == LastIndex(archive, x.threadId) then MergeThread(archive[i], x)
      else MergedAt(archive, before, i)
  {
    assert archive[i] in archive;
    ThreadIdsAppend(before, x);
    var other := archive[i].threadId;
    if other in ThreadIds(before + [x]) {
      LastIndexAppend(before, x, other);
    }
  }

  /** One more incoming thread on the appended threads. */
  lemma NewThreadsAppend(archive: seq<ThreadRecord>, before: seq<ThreadRecord>, x: ThreadRecord)
    ensures NewThreads(archive, before + [x]) == NewThreads(archive, before)
      + (if x.threadId in ThreadIds(archive) then [] else [x])
  {
    assert (before + [x])[..|before|] == before;
  }

  /** One more incoming thread whose id is archived: the thread the lookup
      finds for it, untouched so far, is merged with it. */
  lemma MergedAppendExisting(archive: seq<ThreadRecord>, before: seq<ThreadRecord>, x: ThreadRecord)
    requires x.threadId !in ThreadIds(before) && x.threadId in ThreadIds(archive)
    ensures var j := LastIndex(archive, x.threadId);
      && Merged(archive, before)[j] == archive[j]
      && Merged(archive, before + [x]) == Merged(archive, before)[j := MergeThread(archive[j], x)]
  {
    var j := LastIndex(archive, x.threadId);
    var u, u' := Updated(archive, before), Updated(archive, before + [x]);
    var merged := MergeThread(archive[j], x);
    NewThreadsAppend(archive, before, x);
    forall i | 0 <= i < |archive|
      ensures u'[i] == u[j := merged][i]
    {
      MergedAtAppend(archive, before, x, i);
    }
    assert u' == u[j := merged];
    MergedAtAppend(archive, before, x, j);
    var added := NewThreads(archive, before);
    assert Merged(archive, before) == u + added;
    assert Merged(archive, before + [x]) == u' + added;
    UpdateConcat(u, added, j, merged);
  }

  /** Updating a position of the first part of a concatenation. */
  lemma UpdateConcat(u: seq<ThreadRecord>, v: seq<ThreadRecord>, j: nat, t: ThreadRecord)
    requires j < |u|
    ensures u[j := t] + v == (u + v)[j := t]
  {
  }



  /** One more incoming thread whose id is not archived: it is appended. */
  lemma MergedAppendNew(archive: seq<ThreadRecord>, before: seq<ThreadRecord>, x: ThreadRecord)
    requires x.threadId !in ThreadIds(before) && x.threadId !in ThreadIds(archive)
    ensures Merged(archive, before + [x]) == Merged(archive, before) + [x]
  {
    var m, m' := Merged(archive, before), Merged(archive, before + [x]);
    NewThreadsAppend(archive, before, x);
    forall i | 0 <= i < |archive|
      ensures m'[i] == m[i]
    {
      assert archive[i] in archive;
      MergedAtAppend(archive, before, x, i);
    }
    forall i | |archive| <= i < |m'|
      ensures m'[i] == (m + [x])[i]
    {
      assert m'[i] == m'[|archive|..][i - |archive|];
      if i < |m| {
        assert m[i] == m[|archive|..][i - |archive|];
      }
    }
  }



  /** The posts added to a thread are a subsequence of the incoming posts. */
  lemma {:induction false} FreshPostsSubsequence(seen: set<string>, incoming: seq<Post>)
    ensures IsSubsequence(FreshPosts(seen, incoming), incoming)
  {
    if incoming != [] {
      var init, last := incoming[..|incoming| - 1], incoming[|incoming| - 1];
      FreshPostsSubsequence(seen, init);
      SubsequenceExtend(FreshPosts(seen, init), init, last, last.postId !in seen);
      assert init + [last] == incoming;
      assert FreshPosts(seen, incoming) ==
        if last.postId !in seen then FreshPosts(seen, init) + [last] else FreshPosts(seen, init);
    }
  }

  /** The threads appended to the archive are a subsequence of the batch. */
  lemma {:induction false} NewThreadsSubsequence(archive: seq<ThreadRecord>, batch: seq<ThreadRecord>)
    ensures IsSubsequence(NewThreads(archive, batch), batch)
  {
    if batch != [] {
      var init, last := batch[..|batch| - 1], batch[|batch| - 1];
      NewThreadsSubsequence(archive, init);
      SubsequenceExtend(NewThreads(archive, init), init, last, last.threadId !in ThreadIds(archive));
      assert init + [last] == batch;
      assert NewThreads(archive, batch) == if last.threadId !in ThreadIds(archive)
        then NewThreads(archive, init) + [last] else NewThreads(archive, init);
    }
  }

  /** Incoming posts with unique ids are added without creating duplicates. */
  lemma {:induction false} FreshPostsUnique(seen: set<string>, incoming: seq<Post>)
    requires UniquePostIds(incoming)
    ensures UniquePostIds(FreshPosts(seen, incoming))
  {
    if incoming != [] {
      var init, last := incoming[..|incoming| - 1], incoming[|incoming| - 1];
      FreshPostsUnique(seen, init);
      var before := FreshPosts(seen, init);
      forall j | 0 <= j < |before|
        ensures before[j].postId != last.postId
      {
        assert before[j] in init;
        var m :| 0 <= m < |init| && init[m] == before[j];
        assert incoming[m] == before[j];
      }
    }
  }

  /** A thread whose stored posts and incoming posts each have unique ids still
      has unique post ids after the merge. */
  lemma MergeKeepsPostIdsUnique(t: ThreadRecord, incoming: ThreadRecord)
    requires UniquePostIds(t.posts) && UniquePostIds(incoming.posts)
    ensures UniquePostIds(MergeThread(t, incoming).posts)
  {
    var added := FreshPosts(PostIds(t.posts), incoming.posts);
    FreshPostsUnique(PostIds(t.posts), incoming.posts);
    var m := MergeThread(t, incoming).posts;
    assert m == t.posts + added;
    forall i, j | 0 <= i < j < |m|
      ensures m[i].postId != m[j].postId
    {
      if i < |t.posts| <= j {
        assert m[j] == added[j - |t.posts|] && m[j] in added;
        assert m[i] in t.posts;
      }
    }
  }

  /** The id set is taken once, before the incoming posts are walked: two
      incoming posts with the same new id are both appended. */
  lemma DuplicateIncomingPostsKept(t: ThreadRecord, incoming: ThreadRecord, p: Post)
    requires p.postId !in PostIds(t.posts) && incoming.posts == [p, p]
    ensures MergeThread(t, incoming).posts == t.posts + [p, p]
    ensures !UniquePostIds(MergeThread(t, incoming).posts)
  {
    assert [p, p][..1] == [p];
    var m := MergeThread(t, incoming).posts;
    assert m[|t.posts|] == p && m[|t.posts| + 1] == p;
  }

  /** When every incoming id is already stored, nothing is added. */
  lemma NoFreshPosts(seen: set<string>, incoming: seq<Post>)
    requires forall p :: p in incoming ==> p.postId in seen
    ensures FreshPosts(seen, incoming) == []
  {
  }

  /** Merging the same incoming thread twice is merging it once. */
  lemma MergeThreadIdempotent(t: ThreadRecord, incoming: ThreadRecord)
    ensures MergeThread(MergeThread(t, incoming), incoming) == MergeThread(t, incoming)
  {
    var m := MergeThread(t, incoming);
    forall p | p in incoming.posts
      ensures p.postId in PostIds(m.posts)
    {
      if p.postId !in PostIds(t.posts) {
        assert p in m.posts[|t.posts|..];
      } else {
        var q :| q in t.posts && q.postId == p.postId;
        assert q in m.posts[..|t.posts|];
      }
    }
    NoFreshPosts(PostIds(m.posts), incoming.posts);
  }

  /** A thread merged with itself is unchanged. */
  lemma MergeThreadSelf(t: ThreadRecord)
    ensures MergeThread(t, t) == t
  {
    NoFreshPosts(PostIds(t.posts), t.posts);
  }

  /** A thread at `i` is the last with its id exactly when no later thread has it. */
  lemma LastIndexAt(ts: seq<ThreadRecord>, i: nat)
    requires i < |ts|
    ensures ts[i].threadId in ThreadIds(ts)
    ensures LastIndex(ts, ts[i].threadId) == i <==> forall j :: i < j < |ts| ==> ts[j].threadId != ts[i].threadId
  {
    assert ts[i] in ts;
  }

  /** The appended threads of a batch with unique ids have unique ids. */
  lemma {:induction false} NewThreadsUnique(archive: seq<ThreadRecord>, batch: seq<ThreadRecord>)
    requires UniqueThreadIds(batch)
    ensures UniqueThreadIds(NewThreads(archive, batch))
  {
    if batch != [] {
      var init, last := batch[..|batch| - 1], batch[|batch| - 1];
      NewThreadsUnique(archive, init);
      UniqueBefore(batch, |batch| - 1);
      var before := NewThreads(archive, init);
      forall j | 0 <= j < |before|
        ensures before[j].threadId != last.threadId
      {
        assert before[j] in init;
      }
    }
  }

  /** The archive keeps unique thread ids when the batch has unique ids. */
  lemma MergedKeepsThreadIdsUnique(archive: seq<ThreadRecord>, batch: seq<ThreadRecord>)
    requires UniqueThreadIds(archive) && UniqueThreadIds(batch)
    ensures UniqueThreadIds(Merged(archive, batch))
  {
    var m := Merged(archive, batch);
    NewThreadsUnique(archive, batch);
    forall i, j | 0 <= i < j < |m|
      ensures m[i].threadId != m[j].threadId
    {
      if j >= |archive| {
        assert m[j] == m[|archive|..][j - |archive|] && m[j] in NewThreads(archive, batch);
        if i >= |archive| {
          assert m[i] == m[|archive|..][i - |archive|];
        } else {
          assert archive[i] in archive;
        }
      }
    }
  }

  /** Every thread of the merged archive is its own merge with the batch. */
  lemma MergedAtFixed(archive: seq<ThreadRecord>, batch: seq<ThreadRecord>, i: nat)
    requires UniqueThreadIds(batch) && i < |Merged(archive, batch)|
    ensures MergedAt(Merged(archive, batch), batch, i) == Merged(archive, batch)[i]
  {
    var m := Merged(archive, batch);
    var added := NewThreads(archive, batch);
    var id := m[i].threadId;
    LastIndexAt(m, i);
    if i < |archive| {
      LastIndexAt(archive, i);
      forall j | i < j < |m|
        ensures m[j].threadId != id <==> j >= |archive| || archive[j].threadId != id
      {
        if j >= |archive| {
          assert m[j] == added[j - |archive|] && m[j] in added;
          assert archive[i] in archive;
        }
      }
      if id in ThreadIds(batch) && LastIndex(archive, id) == i {
        MergeThreadIdempotent(archive[i], batch[LastIndex(batch, id)]);
      }
    } else {
      NewThreadsUnique(archive, batch);
      var r := added[i - |archive|];
      assert m[i] == r && r in added && r in batch;
      forall j | i < j < |m|
        ensures m[j].threadId != id
      {
        assert m[j] == added[j - |archive|];
      }
      var k :| 0 <= k < |batch| && batch[k] == r;
      assert batch[LastIndex(batch, id)] == r;
      MergeThreadSelf(r);
    }
  }

  /** When every incoming id is already archived, nothing is appended. */
  lemma NoNewThreads(archive: seq<ThreadRecord>, batch: seq<ThreadRecord>)
    requires forall t :: t in batch ==> t.threadId in ThreadIds(archive)
    ensures NewThreads(archive, batch) == []
  {
  }

  /** After the merge every id of the batch is in the archive. */
  lemma BatchIdsMerged(archive: seq<ThreadRecord>, batch: seq<ThreadRecord>)
    ensures forall t :: t in batch ==> t.threadId in ThreadIds(Merged(archive, batch))
  {
    var m := Merged(archive, batch);
    forall t | t in batch
      ensures t.threadId in ThreadIds(m)
    {
      if t.threadId in ThreadIds(archive) {
        var j := LastIndex(archive, t.threadId);
        assert m[j] in m;
      } else {
        assert t in NewThreads(archive, batch);
        assert t in m[|archive|..];
      }
    }
  }

  /** `update_output_file` is idempotent: merging the same batch into the
      merged archive changes nothing. */
  lemma MergedIdempotent(archive: seq<ThreadRecord>, batch: seq<ThreadRecord>)
    requires UniqueThreadIds(batch)
    ensures Merged(Merged(archive, batch), batch) == Merged(archive, batch)
  {
    var m := Merged(archive, batch);
    BatchIdsMerged(archive, batch);
    NoNewThreads(m, batch);
    var again := Merged(m, batch);
    assert |again| == |m|;
    forall i | 0 <= i < |m|
      ensures again[i] == m[i]
    {
      MergedAtFixed(archive, batch, i);
    }
  }
}
