/** The records of the archive file `scraped_data.json`: threads, each with
    the posts scraped from it. */
module Records {
  import opened Instants

  /** One stored post. `timestamp` is the instant the post was written; the
      archive keeps it as its ISO 8601 text. */
  datatype Post = Post(postId: string, author: string, timestamp: Instant, content: string)

  /** One stored thread: its id (the digits of `t=` in its URL), title, URL,
      the author of its first scraped post, and its posts in page order. */
  datatype ThreadRecord = ThreadRecord(
    threadId: string,
    title: string,
    url: string,
    initialAuthor: string,
    posts: seq<Post>)

  function PostIds(ps: seq<Post>): set<string> {
    set p | p in ps :: p.postId
  }

  function ThreadIds(ts: seq<ThreadRecord>): set<string> {
    set t | t in ts :: t.threadId
  }

  /** No two posts share an id. */
  predicate UniquePostIds(ps: seq<Post>) {
    forall i, j :: 0 <= i < j < |ps| ==> ps[i].postId != ps[j].postId
  }

  /** No two threads share an id, as in a dictionary keyed by thread id. */
  predicate UniqueThreadIds(ts: seq<ThreadRecord>) {
    forall i, j :: 0 <= i < j < |ts| ==> ts[i].threadId != ts[j].threadId
  }

  lemma ThreadIdsAppend(ts: seq<ThreadRecord>, t: ThreadRecord)
    ensures ThreadIds(ts + [t]) == ThreadIds(ts) + {t.threadId}
  {
    assert forall x :: x in ts + [t] <==> x in ts || x == t;
  }
}
