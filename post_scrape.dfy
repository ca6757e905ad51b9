/** The post loop of `scrape_thread`: every post element of every page of a
    thread is checked, and the ones that pass and are in scope are stored.
    Selecting the elements and their parts in the HTML is not part of this
    model: each element arrives as the values the selectors produced. */
module PostScrape {
  import opened Wrappers
  import opened Text
  import opened Instants
  import opened DateParse
  import opened Records

  /** The stored content is cut to this many characters. */
  const MaxContentLength: nat := 9500

  /** A post element as the HTML selection leaves it:
      `elementId` is its `id` attribute ("" when it has none);
      `anchorName` the `name` of its first anchor with a name, if there is one;
      `author` the text of the first author selector that matched, else "Unknown";
      `content` the text of `div.content` without quotes, else "";
      `dateText` the group the `»` date pattern captured in `p.author`, if any. */
  datatype PostElement = PostElement(
    elementId: string,
    anchorName: Option<string>,
    author: string,
    content: string,
    dateText: Option<string>)

  /** The id of a post: its element id without the leading 'p'; otherwise the
      name of its anchor; otherwise `post_<n>` with `n` one more than the
      number of posts already kept in the thread. */
  function PostIdOf(e: PostElement, keptSoFar: nat): (id: string)
    ensures e.elementId != [] && e.elementId[0] == 'p' ==> ['p'] + id == e.elementId
    ensures (e.elementId == [] || e.elementId[0] != 'p') && e.anchorName.Some? ==> id == e.anchorName.value
    ensures (e.elementId == [] || e.elementId[0] != 'p') && e.anchorName.None? ==>
      id == "post_" + NatToDecimal(keptSoFar + 1)
    ensures id == [] <==> HasEmptyId(e)
  {
    if e.elementId != [] && e.elementId[0] == 'p' then e.elementId[1..]
    else match e.anchorName
      case Some(name) => name
      case None => "post_" + NatToDecimal(keptSoFar + 1)
  }

  /** The derived id is empty: the element id is just "p", or there is no such
      id and the anchor's name is empty. The number of posts kept so far
      plays no part. */
  predicate HasEmptyId(e: PostElement) {
    if e.elementId != [] && e.elementId[0] == 'p' then e.elementId == "p"
    else e.anchorName == Some("")
  }

  /** The date of the post: the captured text stripped and parsed. */
  function DateOf(e: PostElement): Option<Instant> {
    match e.dateText
    case None => None
    case Some(text) => ParseDate(Strip(text))
  }

  /** `content[:9500]` */
  function Truncate(content: string): (r: string)
    ensures |r| <= MaxContentLength
    ensures |r| == Min(|content|, MaxContentLength) && r == content[..|r|]
  {
    if |content| <= MaxContentLength then content else content[..MaxContentLength]
  }

  /** The element carries an id, a known author, content and a parsed date. */
  predicate Complete(e: PostElement) {
    !HasEmptyId(e) && e.author != "Unknown" && e.content != [] && DateOf(e).Some?
  }

  /** In an initial run every date is in scope; otherwise only dates strictly
      after the watermark. */
  predicate InScope(date: Instant, watermark: Instant, isInitialRun: bool) {
    isInitialRun || Before(watermark, date)
  }

  predicate Admitted(e: PostElement, watermark: Instant, isInitialRun: bool) {
    Complete(e) && InScope(DateOf(e).value, watermark, isInitialRun)
  }

  /** The stored form of an admitted element. */
  function Stored(e: PostElement, keptSoFar: nat): Post
    requires DateOf(e).Some?
  {
    Post(PostIdOf(e, keptSoFar), e.author, DateOf(e).value, Truncate(e.content))
  }

  /** The posts the loop keeps from the elements, in order. */
  function KeptPosts(elements: seq<PostElement>, watermark: Instant, isInitialRun: bool): (r: seq<Post>)
    ensures forall p :: p in r ==>
      && p.postId != [] && p.author != "Unknown" && p.content != []
      && |p.content| <= MaxContentLength
      && InScope(p.timestamp, watermark, isInitialRun)
  {
    if elements == [] then []
    else
      var before := KeptPosts(elements[..|elements| - 1], watermark, isInitialRun);
      var e := elements[|elements| - 1];
      if Admitted(e, watermark, isInitialRun) then before + [Stored(e, |before|)] else before
  }

  /** The admitted elements, in order. */
  function AdmittedElements(elements: seq<PostElement>, watermark: Instant, isInitialRun: bool): seq<PostElement> {
    if elements == [] then []
    else
      var e := elements[|elements| - 1];
      AdmittedElements(elements[..|elements| - 1], watermark, isInitialRun)
        + (if Admitted(e, watermark, isInitialRun) then [e] else [])
  }

  /** One more element: it is stored when admitted. */
  lemma KeptStep(elements: seq<PostElement>, e: PostElement, watermark: Instant, isInitialRun: bool)
    ensures KeptPosts(elements + [e], watermark, isInitialRun) ==
      var before := KeptPosts(elements, watermark, isInitialRun);
      if Admitted(e, watermark, isInitialRun) then before + [Stored(e, |before|)] else before
  {
    assert (elements + [e])[..|elements|] == elements;
  }

  // ----------------------------------------------------------- the loops

  /** The element loop of one thread page. `before` are the elements of the
      pages already walked, `posts0` what they left. */
  method ScanPostPage(ghost before: seq<PostElement>, posts0: seq<Post>, elements: seq<PostElement>,
                      watermark: Instant, isInitialRun: bool)
    returns (posts: seq<Post>)
    requires posts0 == KeptPosts(before, watermark, isInitialRun)
    ensures posts == KeptPosts(before + elements, watermark, isInitialRun)
  {
    posts := posts0;
    assert before + elements[..0] == before;
    var i := 0;
    while i < |elements|
      invariant i <= |elements|
      invariant posts == KeptPosts(before + elements[..i], watermark, isInitialRun)
    {
      ScanPostStep(before, elements, i, watermark, isInitialRun);
      var kept := CheckPost(elements[i], |posts|, watermark, isInitialRun);
      if kept.Some? {
        posts := posts + [kept.value];
      }
      i := i + 1;
    }
    assert elements[..i] == elements;
  }

  /** The checks of one element, in the order the loop makes them: the post
      to store, if the element is admitted. */
  method CheckPost(e: PostElement, keptSoFar: nat, watermark: Instant, isInitialRun: bool)
    returns (kept: Option<Post>)
    ensures kept == if Admitted(e, watermark, isInitialRun) then Some(Stored(e, keptSoFar)) else None
  {
    kept := None;
    var postId := PostIdOf(e, keptSoFar);
    var postDate := DateOf(e);
    if postId != [] && e.author != "Unknown" && e.content != [] && postDate.Some? {
      if isInitialRun || Before(watermark, postDate.value) {
        kept := Some(Post(postId, e.author, postDate.value, Truncate(e.content)));
      }
    }
  }

  /** The loop's step: element `i` is stored after the posts kept from the
      earlier ones when it is admitted. */
  lemma ScanPostStep(before: seq<PostElement>, elements: seq<PostElement>, i: nat,
                     watermark: Instant, isInitialRun: bool)
    requires i < |elements|
    ensures KeptPosts(before + elements[..i + 1], watermark, isInitialRun) ==
      var done := KeptPosts(before + elements[..i], watermark, isInitialRun);
      if Admitted(elements[i], watermark, isInitialRun) then done + [Stored(elements[i], |done|)] else done
  {
    assert before + elements[..i + 1] == (before + elements[..i]) + [elements[i]];
    KeptStep(before + elements[..i], elements[i], watermark, isInitialRun);
  }

  /** `scrape_thread` over the post elements of the thread's pages, in the
      order the pages were visited. */
  method ScrapeThread(pages: seq<seq<PostElement>>, watermark: Instant, isInitialRun: bool)
    returns (posts: seq<Post>)
    ensures posts == KeptPosts(Flatten(pages), watermark, isInitialRun)
  {
    posts := [];
    var p := 0;
    while p < |pages|
      invariant p <= |pages|
      invariant posts == KeptPosts(Flatten(pages[..p]), watermark, isInitialRun)
    {
      assert pages[..p + 1][..p] == pages[..p];
      posts := ScanPostPage(Flatten(pages[..p]), posts, pages[p], watermark, isInitialRun);
      p := p + 1;
    }
    assert pages[..p] == pages;
  }

  // ------------------------------------------------------------ properties

  /** The kept posts are the admitted elements, one post each and in order;
      the `k`-th is stored with `k` posts kept before it. */
  lemma {:induction false} KeptPostsAreAdmitted(elements: seq<PostElement>, watermark: Instant, isInitialRun: bool)
    ensures var kept := KeptPosts(elements, watermark, isInitialRun);
      var admitted := AdmittedElements(elements, watermark, isInitialRun);
      && |kept| == |admitted|
      && forall k :: 0 <= k < |kept| ==> DateOf(admitted[k]).Some? && kept[k] == Stored(admitted[k], k)
  {
    if elements != [] {
      KeptPostsAreAdmitted(elements[..|elements| - 1], watermark, isInitialRun);
    }
  }

  /** In an incremental run a post dated exactly at the watermark is dropped. */
  lemma AtWatermarkDropped(e: PostElement, watermark: Instant)
    requires DateOf(e) == Some(watermark)
    ensures !Admitted(e, watermark, false)
  {
    BeforeIsStrictTotalOrder(watermark, watermark, watermark);
  }

  /** In an initial run every complete element is kept, whatever its date. */
  lemma InitialRunAdmitsComplete(e: PostElement, watermark: Instant)
    ensures Admitted(e, watermark, true) <==> Complete(e)
  {
  }
}
