/** The sync controller of `main`, with `load_state` and `save_state`: the
    state file holds a watermark and a mode; a run scrapes in that mode,
    merges what it found into the archive, and saves the newest post time
    as the next watermark, in incremental mode. */
module Sync {
  import opened Wrappers
  import opened Instants
  import opened Records
  import opened ThreadIndex
  import opened PostScrape
  import opened Archive

  /** What `load_state` returns and `save_state` writes. */
  datatype SyncState = SyncState(lastScrape: Instant, isInitialRun: bool)

  /** `state.json` as far as `load_state` reads it. `lastScrape` is `None`
      when the key is missing or its text is not an ISO 8601 date;
      `isInitialRun` is `None` when the key is missing. */
  datatype StateFile = StateFile(lastScrape: Option<Instant>, isInitialRun: Option<bool>)

  /** The state of a first run: watermark 2000-01-01 UTC, initial mode. */
  const FirstRun: SyncState := SyncState(Epoch, true)

  /** `load_state`: `file` is `None` when `state.json` is missing or is not
      JSON. Any failure gives the first-run state. */
  function LoadState(file: Option<StateFile>): (s: SyncState)
    ensures file.None? || file.value.lastScrape.None? ==> s == FirstRun
    ensures file.Some? && file.value.lastScrape.Some? ==>
      s.lastScrape == file.value.lastScrape.value && s.isInitialRun == file.value.isInitialRun.GetOr(false)
  {
    match file
    case None => FirstRun
    case Some(f) =>
      match f.lastScrape
      case None => FirstRun
      case Some(t) => SyncState(t, f.isInitialRun.GetOr(false))
  }

  /** `save_state`: the file it writes. */
  function SaveState(s: SyncState): (f: StateFile)
    ensures f.lastScrape.Some? && f.isInitialRun.Some?
    ensures LoadState(Some(f)) == s
  {
    StateFile(Some(s.lastScrape), Some(s.isInitialRun))
  }

  /** The mode `main` runs in: `--full` (or `-f`) forces a first run. */
  function StartState(loaded: SyncState, forceFull: bool): (s: SyncState)
    ensures forceFull ==> s == FirstRun
    ensures !forceFull ==> s == loaded
  {
    if forceFull then FirstRun else loaded
  }

  /** The newest of `watermark` and the times of `posts`, as the loop over
      the kept posts computes it. */
  function Newest(watermark: Instant, posts: seq<Post>): (t: Instant)
    ensures !Before(t, watermark)
    ensures forall p :: p in posts ==> !Before(t, p.timestamp)
    ensures t == watermark || exists p :: p in posts && t == p.timestamp
  {
    if posts == [] then
      BeforeIsStrictTotalOrder(watermark, watermark, watermark);
      watermark
    else
      var init, last := posts[..|posts| - 1], posts[|posts| - 1];
      var before := Newest(watermark, init);
      var t := Latest(before, last.timestamp);
      forall p | p in posts
        ensures !Before(t, p.timestamp)
      {
        if p in init {
          NotBeforeTransitive(t, before, p.timestamp);
        }
      }
      NotBeforeTransitive(t, before, watermark);
      assert before == watermark || exists p :: p in posts && before == p.timestamp by {
        if before != watermark {
          var p :| p in init && before == p.timestamp;
          assert p in posts;
        }
      }
      t
  }

  /** The posts of all threads of a batch, thread after thread. */
  function AllPosts(batch: seq<ThreadRecord>): seq<Post> {
    if batch == [] then [] else AllPosts(batch[..|batch| - 1]) + batch[|batch| - 1].posts
  }

  /** The thread record `main` builds for a stub with kept posts. */
  function RecordOf(stub: Stub, posts: seq<Post>): ThreadRecord
    requires posts != []
  {
    ThreadRecord(stub.id, stub.title, stub.url, posts[0].author, posts)
  }

  /** The posts scraped from a thread; a thread whose pages could not be
      fetched has none. */
  function ThreadPosts(stub: Stub, pages: map<string, seq<seq<PostElement>>>, start: SyncState): seq<Post> {
    var thread := if stub.url in pages then pages[stub.url] else [];
    KeptPosts(Flatten(thread), start.lastScrape, start.isInitialRun)
  }

  /** `all_new_data`: a record for each stub with kept posts, in stub order. */
  function NewData(stubs: seq<Stub>, pages: map<string, seq<seq<PostElement>>>, start: SyncState): (r: seq<ThreadRecord>)
    ensures forall t :: t in r ==> t.posts != [] && exists s :: s in stubs && t.threadId == s.id
  {
    if stubs == [] then []
    else
      var before := NewData(stubs[..|stubs| - 1], pages, start);
      var stub := stubs[|stubs| - 1];
      var posts := ThreadPosts(stub, pages, start);
      assert forall t :: t in before ==> exists s :: s in stubs && t.threadId == s.id by {
        forall t | t in before
          ensures exists s :: s in stubs && t.threadId == s.id
        {
          var s :| s in stubs[..|stubs| - 1] && t.threadId == s.id;
          assert s in stubs;
        }
      }
      if posts != [] then before + [RecordOf(stub, posts)] else before
  }

  /** What a run that gets past login saves: `None` when no thread was found
      (the run ends without saving); otherwise incremental mode and a
      watermark at or after the one it started from and every kept post,
      which is the old one when no post was kept. */
  function Outcome(start: SyncState, stubs: seq<Stub>, data: seq<ThreadRecord>): (r: Option<SyncState>)
    ensures r.None? <==> stubs == []
    ensures r.Some? ==> !r.value.isInitialRun && !Before(r.value.lastScrape, start.lastScrape)
    ensures r.Some? ==> forall p :: p in AllPosts(data) ==> !Before(r.value.lastScrape, p.timestamp)
    ensures r.Some? ==> r.value.lastScrape == start.lastScrape
                        || exists p :: p in AllPosts(data) && r.value.lastScrape == p.timestamp
  {
    if stubs == [] then None
    else Some(SyncState(Newest(start.lastScrape, AllPosts(data)), false))
  }

  /** The `threads[:limit]` slice of the stubs. */
  function Scanned(stubs: seq<Stub>, limit: nat): seq<Stub> {
    if limit < |stubs| then stubs[..limit] else stubs
  }

  // ----------------------------------------------------------- the loops

  /** The watermark loop over one thread's kept posts: a later post time
      replaces the newest time seen. */
  method AdvanceNewest(newest0: Instant, posts: seq<Post>) returns (newest: Instant)
    ensures newest == Newest(newest0, posts)
  {
    newest := newest0;
    var k := 0;
    while k < |posts|
      invariant k <= |posts|
      invariant newest == Newest(newest0, posts[..k])
    {
      assert posts[..k + 1][..k] == posts[..k];
      if Before(newest, posts[k].timestamp) {
        newest := posts[k].timestamp;
      }
      k := k + 1;
    }
    assert posts[..k] == posts;
  }

  /** The thread loop of `main`: scrapes each stub's thread, records the
      threads with kept posts and carries the newest post time. */
  method ScrapeThreads(scanned: seq<Stub>, postPages: map<string, seq<seq<PostElement>>>, start: SyncState)
    returns (allNewData: seq<ThreadRecord>, newest: Instant)
    ensures allNewData == NewData(scanned, postPages, start)
    ensures newest == Newest(start.lastScrape, AllPosts(allNewData))
  {
    allNewData := [];
    newest := start.lastScrape;
    var i := 0;
    while i < |scanned|
      invariant i <= |scanned|
      invariant allNewData == NewData(scanned[..i], postPages, start)
      invariant newest == Newest(start.lastScrape, AllPosts(allNewData))
    {
      var thread := scanned[i];
      ScrapeStep(scanned, i, postPages, start);
      var pages := if thread.url in postPages then postPages[thread.url] else [];
      var posts := ScrapeThread(pages, start.lastScrape, start.isInitialRun);
      if posts != [] {
        var record := ThreadRecord(thread.id, thread.title, thread.url, posts[0].author, posts);
        allNewData := allNewData + [record];
        newest := AdvanceNewest(newest, posts);
      }
      i := i + 1;
    }
    assert scanned[..i] == scanned;
  }

  /** One run of `main` once the credentials are present. `loggedIn` says
      whether one of the login attempts succeeded; `linkPages` are the anchors
      of the listing pages visited, `postPages` the post elements of the pages
      of each thread by thread URL; `limit` is the `threads[:6]` cap and
      `now` the clock. Returns the state saved, if the run saves one. */
  method Run(file: Option<StateFile>, forceFull: bool, loggedIn: bool,
             linkPages: seq<seq<Link>>, postPages: map<string, seq<seq<PostElement>>>,
             limit: nat, archive: ArchiveFile, now: Instant)
    returns (saved: Option<SyncState>)
    modifies archive
    ensures var start := StartState(LoadState(file), forceFull);
      var stubs := Stubs(Flatten(linkPages));
      var data := NewData(Scanned(stubs, limit), postPages, start);
      && saved == (if loggedIn then Outcome(start, stubs, data) else None)
      && archive.threads == (if saved.Some? && data != [] then Merged(old(archive.threads), data) else old(archive.threads))
      && archive.scrapedAt == (if saved.Some? && data != [] then Some(now) else old(archive.scrapedAt))
      && archive.sourceForum == old(archive.sourceForum)
  {
    var start := StartState(LoadState(file), forceFull);
    if !loggedIn {
      return None;
    }
    var threads := GetThreadStubs(linkPages);
    if threads == [] {
      return None;
    }
    var scanned := Scanned(threads, limit);
    var allNewData, newest := ScrapeThreads(scanned, postPages, start);
    if allNewData != [] {
      StubsUnique(Flatten(linkPages));
      ScannedUnique(threads, limit);
      NewDataUnique(scanned, postPages, start);
      archive.UpdateWith(allNewData, now);
    }
    saved := Some(SyncState(newest, false));
  }

  // ------------------------------------------------------------ properties

  /** The newest time of two lists of posts, one after the other, is found
      by carrying the newest time of the first into the second. */
  lemma {:induction false} NewestAppend(watermark: Instant, a: seq<Post>, b: seq<Post>)
    ensures Newest(watermark, a + b) == Newest(Newest(watermark, a), b)
  {
    if b == [] {
      assert a + b == a;
    } else {
      var init := b[..|b| - 1];
      NewestAppend(watermark, a, init);
      assert (a + b)[..|a + b| - 1] == a + init;
      assert (a + b)[|a + b| - 1] == b[|b| - 1];
    }
  }

  lemma NewDataStep(stubs: seq<Stub>, stub: Stub, pages: map<string, seq<seq<PostElement>>>, start: SyncState)
    ensures NewData(stubs + [stub], pages, start) ==
      var posts := ThreadPosts(stub, pages, start);
      if posts != [] then NewData(stubs, pages, start) + [RecordOf(stub, posts)] else NewData(stubs, pages, start)
  {
    assert (stubs + [stub])[..|stubs|] == stubs;
  }

  /** The thread loop's step: stub `i` adds a record when it has kept posts,
      and the newest time is carried into those posts. */
  lemma ScrapeStep(scanned: seq<Stub>, i: nat, pages: map<string, seq<seq<PostElement>>>, start: SyncState)
    requires i < |scanned|
    ensures var before := NewData(scanned[..i], pages, start);
      var posts := ThreadPosts(scanned[i], pages, start);
      && (posts == [] ==> NewData(scanned[..i + 1], pages, start) == before)
      && (posts != [] ==> NewData(scanned[..i + 1], pages, start) == before + [RecordOf(scanned[i], posts)])
      && (posts != [] ==> Newest(start.lastScrape, AllPosts(before + [RecordOf(scanned[i], posts)]))
                          == Newest(Newest(start.lastScrape, AllPosts(before)), posts))
  {
    var before := NewData(scanned[..i], pages, start);
    var posts := ThreadPosts(scanned[i], pages, start);
    assert scanned[..i + 1] == scanned[..i] + [scanned[i]];
    NewDataStep(scanned[..i], scanned[i], pages, start);
    if posts != [] {
      AllPostsStep(before, RecordOf(scanned[i], posts));
      NewestAppend(start.lastScrape, AllPosts(before), posts);
    }
  }

  lemma AllPostsStep(batch: seq<ThreadRecord>, t: ThreadRecord)
    ensures AllPosts(batch + [t]) == AllPosts(batch) + t.posts
  {
    assert (batch + [t])[..|batch|] == batch;
  }

  /** The first `limit` stubs of stubs with unique ids have unique ids. */
  lemma ScannedUnique(stubs: seq<Stub>, limit: nat)
    requires UniqueStubIds(stubs)
    ensures UniqueStubIds(Scanned(stubs, limit))
  {
  }

  /** Records built from stubs with unique ids have unique thread ids, as the
      keys of `all_new_data` do. */
  lemma {:induction false} NewDataUnique(stubs: seq<Stub>, pages: map<string, seq<seq<PostElement>>>, start: SyncState)
    requires UniqueStubIds(stubs)
    ensures UniqueThreadIds(NewData(stubs, pages, start))
  {
    if stubs != [] {
      var init, stub := stubs[..|stubs| - 1], stubs[|stubs| - 1];
      NewDataUnique(init, pages, start);
      var before := NewData(init, pages, start);
      forall j | 0 <= j < |before|
        ensures before[j].threadId != stub.id
      {
        assert before[j] in before;
        var s :| s in init && before[j].threadId == s.id;
        var m :| 0 <= m < |init| && init[m] == s;
        assert stubs[m] == s;
      }
    }
  }

  /** The posts of `all_new_data` are all in the scope of the run. */
  lemma {:induction false} NewDataInScope(stubs: seq<Stub>, pages: map<string, seq<seq<PostElement>>>, start: SyncState)
    ensures forall p :: p in AllPosts(NewData(stubs, pages, start)) ==>
      InScope(p.timestamp, start.lastScrape, start.isInitialRun)
  {
    if stubs != [] {
      var init, stub := stubs[..|stubs| - 1], stubs[|stubs| - 1];
      NewDataInScope(init, pages, start);
      NewDataStep(init, stub, pages, start);
      assert init + [stub] == stubs;
      var posts := ThreadPosts(stub, pages, start);
      if posts != [] {
        AllPostsStep(NewData(init, pages, start), RecordOf(stub, posts));
      }
    }
  }

  /** An incremental run that keeps a post moves the watermark strictly
      forward, so the next run does not fetch that post again. */
  lemma IncrementalRunAdvances(start: SyncState, stubs: seq<Stub>, scanned: seq<Stub>,
                               pages: map<string, seq<seq<PostElement>>>)
    requires !start.isInitialRun && stubs != []
    requires AllPosts(NewData(scanned, pages, start)) != []
    ensures Before(start.lastScrape, Outcome(start, stubs, NewData(scanned, pages, start)).value.lastScrape)
  {
    var all := AllPosts(NewData(scanned, pages, start));
    NewDataInScope(scanned, pages, start);
    var t := Newest(start.lastScrape, all);
    assert all[0] in all;
    BeforeIsStrictTotalOrder(t, start.lastScrape, all[0].timestamp);
  }
}
