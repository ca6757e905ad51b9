/** The thread list of the forum section (`get_gpw_threads`): the anchors of
    each listing page are filtered and turned into thread stubs, unique by
    thread id. Finding the anchors and the next page in the HTML is not part
    of this model: the pages arrive as their anchors, in visiting order. */
module ThreadIndex {
  import opened Wrappers
  import opened Text

  /** A thread anchor: its `href`, its text with whitespace stripped, and
      the absolute URL that `urljoin` makes of the href. */
  datatype Link = Link(href: string, title: string, url: string)

  /** `{'id': …, 'title': …, 'url': …}` */
  datatype Stub = Stub(id: string, title: string, url: string)

  /** `SKIP_THREAD_TITLES`: SPÓŁKA DO ANALIZY, DYSKUSJA OGÓLNA, MAKRO,
      WYDARZENIA and KOMUNIKATY ADMINÓW, INFO O NOWYCH ANALIZACH. */
  const SkipThreadTitles: seq<string> := [
    "SP\U{D3}\U{141}KA DO ANALIZY",
    "DYSKUSJA OG\U{D3}LNA, MAKRO, WYDARZENIA",
    "KOMUNIKATY ADMIN\U{D3}W, INFO O NOWYCH ANALIZACH"
  ]

  /** Pager anchors: Następny, Poprzedni, Next, Previous. */
  const NavigationTitles: seq<string> := ["Nast\U{119}pny", "Poprzedni", "Next", "Previous"]

  // ------------------------------------------------------- specification

  /** The title contains a skip-list entry, both upper-cased. */
  predicate SkipListed(title: string) {
    exists k :: 0 <= k < |SkipThreadTitles| && IsSubstring(Upper(SkipThreadTitles[k]), Upper(title))
  }

  /** The anchor survives the checks made before its id is looked for. */
  predicate Listed(link: Link) {
    && link.href != [] && link.title != []
    && link.title !in NavigationTitles
    && !SkipListed(link.title)
  }

  /** `re.search(r't=(\d+)', href)` matches at `i`. */
  predicate IdMatchAt(href: string, i: nat) {
    i + 3 <= |href| && href[i] == 't' && href[i + 1] == '=' && IsDigit(href[i + 2])
  }

  /** The digits that `\d+` takes after a match at `i`. */
  function IdDigitsAt(href: string, i: nat): (id: string)
    requires IdMatchAt(href, i)
    ensures id != [] && AllDigits(id)
  {
    var n := Run(href, i + 2, Digit);
    var id := href[i + 2..i + 2 + n];
    assert forall j :: 0 <= j < |id| ==> id[j] == href[i + 2 + j];
    id
  }

  /** The leftmost match of `t=(\d+)` at `i` or later, and its group. */
  function IdFrom(href: string, i: nat): (r: Option<string>)
    requires i <= |href|
    ensures r.None? ==> forall j :: i <= j ==> !IdMatchAt(href, j)
    ensures r.Some? ==> exists j :: (i <= j && IdMatchAt(href, j) && r.value == IdDigitsAt(href, j)
      && forall m :: i <= m < j ==> !IdMatchAt(href, m))
    decreases |href| - i
  {
    if IdMatchAt(href, i) then Some(IdDigitsAt(href, i))
    else if i == |href| then None
    else
      var r := IdFrom(href, i + 1);
      assert r.Some? ==> exists j :: (i <= j && IdMatchAt(href, j) && r.value == IdDigitsAt(href, j)
        && forall m :: i <= m < j ==> !IdMatchAt(href, m)) by {
        if r.Some? {
          var j :| i + 1 <= j && IdMatchAt(href, j) && r.value == IdDigitsAt(href, j)
            && forall m :: i + 1 <= m < j ==> !IdMatchAt(href, m);
        }
      }
      r
  }

  /** `re.search(r't=(\d+)', href).group(1)`, when it matches. */
  function ThreadIdOf(href: string): (r: Option<string>)
    ensures r.Some? ==> r.value != [] && AllDigits(r.value)
  {
    IdFrom(href, 0)
  }

  /** The stub an anchor yields, if it passes every check. */
  function StubOf(link: Link): (r: Option<Stub>)
    ensures r.Some? ==> Listed(link) && ThreadIdOf(link.href) == Some(r.value.id)
    ensures r.Some? ==> r.value.title == link.title && r.value.url == link.url
    ensures r.None? ==> !Listed(link) || ThreadIdOf(link.href).None?
  {
    if !Listed(link) then None
    else match ThreadIdOf(link.href)
      case Some(id) => Some(Stub(id, link.title, link.url))
      case None => None
  }

  function StubIds(stubs: seq<Stub>): set<string> {
    set s | s in stubs :: s.id
  }

  predicate UniqueStubIds(stubs: seq<Stub>) {
    forall i, j :: 0 <= i < j < |stubs| ==> stubs[i].id != stubs[j].id
  }

  /** The stubs the anchors yield, the first of each id only. */
  function Stubs(links: seq<Link>): seq<Stub> {
    if links == [] then []
    else
      var before := Stubs(links[..|links| - 1]);
      var c := StubOf(links[|links| - 1]);
      if c.Some? && c.value.id !in StubIds(before) then before + [c.value] else before
  }

  /** No two stubs share an id. */
  lemma {:induction false} StubsUnique(links: seq<Link>)
    ensures UniqueStubIds(Stubs(links))
  {
    if links != [] {
      var before := Stubs(links[..|links| - 1]);
      StubsUnique(links[..|links| - 1]);
      assert forall j :: 0 <= j < |before| ==> before[j] in before;
    }
  }

  lemma StubIdsAppend(stubs: seq<Stub>, s: Stub)
    ensures StubIds(stubs + [s]) == StubIds(stubs) + {s.id}
  {
    assert forall x :: x in stubs + [s] <==> x in stubs || x == s;
  }

  /** One more anchor: its stub is added unless its id was already seen. */
  lemma StubsStep(links: seq<Link>, link: Link)
    ensures Stubs(links + [link]) ==
      var c := StubOf(link);
      if c.Some? && c.value.id !in StubIds(Stubs(links)) then Stubs(links) + [c.value] else Stubs(links)
  {
    assert (links + [link])[..|links|] == links;
  }

  /** `StubsStep` at anchor `i` of a page walked after the anchors `before`. */
  lemma ScanStep(before: seq<Link>, links: seq<Link>, i: nat)
    requires i < |links|
    ensures Stubs(before + links[..i + 1]) ==
      var c := StubOf(links[i]);
      var done := Stubs(before + links[..i]);
      if c.Some? && c.value.id !in StubIds(done) then done + [c.value] else done
  {
    assert before + links[..i + 1] == (before + links[..i]) + [links[i]];
    StubsStep(before + links[..i], links[i]);
  }

  /** The stubs every anchor yields, duplicates included, in anchor order. */
  function AllStubs(links: seq<Link>): seq<Stub> {
    if links == [] then []
    else
      var c := StubOf(links[|links| - 1]);
      AllStubs(links[..|links| - 1]) + (if c.Some? then [c.value] else [])
  }

  /** Anchor `link` yields a stub with id `id`. */
  predicate YieldsId(link: Link, id: string) {
    StubOf(link).Some? && StubOf(link).value.id == id
  }

  /** `s` is the stub of anchor `k`, and no earlier anchor yields its id. */
  predicate FirstStubAt(links: seq<Link>, k: nat, s: Stub) {
    && k < |links| && StubOf(links[k]) == Some(s)
    && forall j :: 0 <= j < k ==> !YieldsId(links[j], s.id)
  }

  /** Every id some anchor yields has a stub. */
  lemma {:induction false} StubsCover(links: seq<Link>)
    ensures forall j :: 0 <= j < |links| && StubOf(links[j]).Some? ==> StubOf(links[j]).value.id in StubIds(Stubs(links))
  {
    if links != [] {
      var init, last := links[..|links| - 1], links[|links| - 1];
      StubsCover(init);
      var before := Stubs(init);
      assert forall s :: s in before ==> s in Stubs(links);
      forall j | 0 <= j < |links| && StubOf(links[j]).Some?
        ensures StubOf(links[j]).value.id in StubIds(Stubs(links))
      {
        if j < |init| {
          assert links[j] == init[j];
          var s :| s in before && s.id == StubOf(init[j]).value.id;
          assert s in Stubs(links);
        } else if StubOf(last).value.id !in StubIds(before) {
          assert StubOf(last).value in Stubs(links);
        }
      }
    }
  }

  /** Dropping the last anchor keeps the first stubs of the others. */
  lemma FirstStubInit(links: seq<Link>, k: nat, s: Stub)
    requires k < |links| - 1
    ensures FirstStubAt(links, k, s) == FirstStubAt(links[..|links| - 1], k, s)
  {
    var init := links[..|links| - 1];
    assert links[k] == init[k];
    assert forall j :: 0 <= j < k ==> links[j] == init[j];
  }

  /** Each stub is the first stub of its id. */
  lemma {:induction false} StubsSound(links: seq<Link>, s: Stub)
    requires s in Stubs(links)
    ensures exists k :: FirstStubAt(links, k, s)
  {
    var init := links[..|links| - 1];
    var before := Stubs(init);
    if s in before {
      StubsSound(init, s);
      var k :| FirstStubAt(init, k, s);
      FirstStubInit(links, k, s);
    } else {
      StubsCover(init);
      forall j | 0 <= j < |init|
        ensures !YieldsId(links[j], s.id)
      {
        assert links[j] == init[j];
      }
      assert FirstStubAt(links, |init|, s);
    }
  }

  /** The first stub of each id is kept. */
  lemma {:induction false} StubsComplete(links: seq<Link>, k: nat, s: Stub)
    requires FirstStubAt(links, k, s)
    ensures s in Stubs(links)
  {
    var init := links[..|links| - 1];
    var before := Stubs(init);
    if k < |init| {
      FirstStubInit(links, k, s);
      StubsComplete(init, k, s);
    } else if s.id in StubIds(before) {
      var s' :| s' in before && s'.id == s.id;
      StubsSound(init, s');
      assert false;
    } else {
      assert Stubs(links) == before + [s];
    }
  }

  /** The stubs are exactly the first stub of each id: a later anchor with an
      id already seen is dropped. */
  lemma StubsFirst(links: seq<Link>, s: Stub)
    ensures s in Stubs(links) <==> exists k :: FirstStubAt(links, k, s)
  {
    if s in Stubs(links) {
      StubsSound(links, s);
    }
    if k :| FirstStubAt(links, k, s) {
      StubsComplete(links, k, s);
    }
  }

  /** The stubs keep the order of the anchors. */
  lemma {:induction false} StubsInOrder(links: seq<Link>)
    ensures IsSubsequence(Stubs(links), AllStubs(links))
  {
    if links != [] {
      var init, last := links[..|links| - 1], links[|links| - 1];
      StubsInOrder(init);
      var c := StubOf(last);
      if c.Some? {
        SubsequenceExtend(Stubs(init), AllStubs(init), c.value, c.value.id !in StubIds(Stubs(init)));
      } else {
        assert AllStubs(links) == AllStubs(init);
      }
    }
  }

  // ----------------------------------------------------------- the loops

  /** The skip-list loop: is some skip title in the title, both upper-cased? */
  method ShouldSkip(title: string) returns (skip: bool)
    ensures skip <==> SkipListed(title)
  {
    skip := false;
    var k := 0;
    while k < |SkipThreadTitles|
      invariant k <= |SkipThreadTitles|
      invariant !skip
      invariant forall m :: 0 <= m < k ==> !IsSubstring(Upper(SkipThreadTitles[m]), Upper(title))
    {
      if Contains(Upper(SkipThreadTitles[k]), Upper(title)) {
        skip := true;
        return;
      }
      k := k + 1;
    }
  }

  /** The checks made on one anchor, in the order they are made: href and
      title present, not a pager anchor, not skip-listed, an id in the href. */
  method CheckAnchor(link: Link) returns (c: Option<Stub>)
    ensures c == StubOf(link)
  {
    if link.href == [] || link.title == [] || link.title in NavigationTitles {
      return None;
    }
    var skip := ShouldSkip(link.title);
    if skip {
      return None;
    }
    var id := ThreadIdOf(link.href);
    if id.None? {
      return None;
    }
    return Some(Stub(id.value, link.title, link.url));
  }

  /** The anchor loop of one listing page: adds the stub of each anchor that
      passes the checks and whose id was not seen yet. `before` are the
      anchors of the pages already walked. */
  method ScanPage(ghost before: seq<Link>, threads0: seq<Stub>, seen0: set<string>, links: seq<Link>)
    returns (threads: seq<Stub>, seen: set<string>)
    requires threads0 == Stubs(before) && seen0 == StubIds(threads0)
    ensures threads == Stubs(before + links) && seen == StubIds(threads)
  {
    threads, seen := threads0, seen0;
    assert before + links[..0] == before;
    var i := 0;
    while i < |links|
      invariant i <= |links|
      invariant threads == Stubs(before + links[..i]) && seen == StubIds(threads)
    {
      ScanStep(before, links, i);
      var c := CheckAnchor(links[i]);
      if c.Some? && c.value.id !in seen {
        StubIdsAppend(threads, c.value);
        threads := threads + [c.value];
        seen := seen + {c.value.id};
      }
      i := i + 1;
    }
    assert links[..i] == links;
  }

  /** `get_gpw_threads` over the anchors of the visited pages. */
  method GetThreadStubs(pages: seq<seq<Link>>) returns (threads: seq<Stub>)
    ensures threads == Stubs(Flatten(pages))
  {
    threads := [];
    var seen: set<string> := {};
    var p := 0;
    while p < |pages|
      invariant p <= |pages|
      invariant threads == Stubs(Flatten(pages[..p])) && seen == StubIds(threads)
    {
      assert pages[..p + 1][..p] == pages[..p];
      threads, seen := ScanPage(Flatten(pages[..p]), threads, seen, pages[p]);
      p := p + 1;
    }
    assert pages[..p] == pages;
  }
}
