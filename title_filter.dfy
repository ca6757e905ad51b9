/** `filter_threads_by_title`: the threads of a JSON document whose title
    contains one of a list of patterns, by default case-insensitively.
    Reading and writing the files is not part of this model: the document
    arrives as the value `json.load` made of it. */
module TitleFilter {
  import opened Wrappers
  import opened Text

  /** A JSON value. Object members keep their order in the file; numbers
      are integers. */
  datatype Json =
    | Null
    | Bool(b: bool)
    | Num(n: int)
    | Str(s: string)
    | Arr(items: seq<Json>)
    | Obj(members: seq<(string, Json)>)

  /** What makes the source raise. */
  datatype FilterError =
    | NotIterable    // `for thread in threads` over null, a boolean or a number
    | NoLower        // `title.lower()` on a title that is not a string
    | NotContainer   // `pattern in title` on a title that is null, a boolean or a number

  /** Patterns used when none are given. */
  const DefaultPatterns: seq<string> := ["xtb", "trn"]

  // ------------------------------------------------------- specification

  /** `dict.get(key)`: the value of the last member named `key`, which is
      the one `json.load` keeps. */
  function Get(members: seq<(string, Json)>, key: string): (r: Option<Json>)
    ensures r.Some? <==> exists k :: 0 <= k < |members| && members[k].0 == key
    ensures r.Some? ==> exists k :: (0 <= k < |members| && members[k] == (key, r.value)
                          && forall j :: k < j < |members| ==> members[j].0 != key)
  {
    if members == [] then None
    else
      var last := members[|members| - 1];
      if last.0 == key then Some(last.1)
      else
        var init := members[..|members| - 1];
        var r := Get(init, key);
        assert forall k :: 0 <= k < |init| ==> init[k] == members[k];
        assert r.Some? ==> exists k :: (0 <= k < |members| && members[k] == (key, r.value)
                             && forall j :: k < j < |members| ==> members[j].0 != key) by {
          if r.Some? {
            var k :| 0 <= k < |init| && init[k] == (key, r.value) && forall j :: k < j < |init| ==> init[j].0 != key;
            forall j | k < j < |members|
              ensures members[j].0 != key
            {
              if j < |init| {
                assert init[j].0 != key;
              }
            }
            assert members[k] == (key, r.value);
          }
        }
        r
  }

  /** `dict.get(key, default)` */
  function GetOr(members: seq<(string, Json)>, key: string, default: Json): Json {
    Get(members, key).GetOr(default)
  }

  /** Python's truth value of a JSON value. */
  predicate Truthy(j: Json) {
    match j
    case Null => false
    case Bool(b) => b
    case Num(n) => n != 0
    case Str(s) => s != []
    case Arr(items) => items != []
    case Obj(members) => members != []
  }

  /** `isinstance(v, (str, int, float))`; a boolean is an `int` in Python. */
  predicate IsScalar(j: Json) {
    j.Str? || j.Num? || j.Bool?
  }

  function Values(members: seq<(string, Json)>): (r: seq<Json>)
  {
    seq(|members|, k requires 0 <= k < |members| => members[k].1)
  }

  /** The first of `threads`, `data`, `items` that the dict has is empty or
      false, or it has none of them. */
  predicate NoThreadList(members: seq<(string, Json)>) {
    if Get(members, "threads").Some? then !Truthy(Get(members, "threads").value)
    else if Get(members, "data").Some? then !Truthy(Get(members, "data").value)
    else Get(members, "items").None? || !Truthy(Get(members, "items").value)
  }

  /** Where the thread list of the document is: a dict gives its `threads`,
      else `data`, else `items` member; failing that (an empty or false
      value), its values, or the dict itself when the first value is a
      scalar. Anything else is the list itself. */
  function Container(data: Json): (r: Json)
    ensures !data.Obj? ==> r == data
    ensures data.Obj? && Get(data.members, "threads").Some? && Truthy(Get(data.members, "threads").value)
      ==> r == Get(data.members, "threads").value
    ensures (data.Obj? && Get(data.members, "threads").None? && Get(data.members, "data").Some?
             && Truthy(Get(data.members, "data").value)) ==> r == Get(data.members, "data").value
    ensures (data.Obj? && Get(data.members, "threads").None? && Get(data.members, "data").None?
             && Get(data.members, "items").Some? && Truthy(Get(data.members, "items").value))
      ==> r == Get(data.members, "items").value
    ensures data.Obj? && NoThreadList(data.members) && data.members == [] ==> r == Arr([])
    ensures (data.Obj? && NoThreadList(data.members) && data.members != [])
      ==> r == (if IsScalar(data.members[0].1) then Arr([data]) else Arr(Values(data.members)))
  {
    match data
    case Obj(members) =>
      var threads := GetOr(members, "threads", GetOr(members, "data", GetOr(members, "items", Arr([]))));
      if !Truthy(threads) && |members| > 0 then
        if IsScalar(members[0].1) then Arr([data]) else Arr(Values(members))
      else threads
    case _ => data
  }

  /** What `for thread in threads` walks: the items of a list, the keys of a
      dict, the characters of a string. */
  function Elements(threads: Json): Result<seq<Json>, FilterError> {
    match threads
    case Arr(items) => Success(items)
    case Obj(members) => Success(seq(|members|, k requires 0 <= k < |members| => Str(members[k].0)))
    case Str(s) => Success(seq(|s|, k requires 0 <= k < |s| => Str([s[k]])))
    case _ => Failure(NotIterable)
  }

  /** The title of a thread dict: `thread_title`, else `title`, else `name`,
      else the empty string. */
  function TitleOf(members: seq<(string, Json)>): (r: Json)
    ensures Get(members, "thread_title").Some? ==> r == Get(members, "thread_title").value
    ensures Get(members, "thread_title").None? && Get(members, "title").Some? ==> r == Get(members, "title").value
    ensures Get(members, "thread_title").None? && Get(members, "title").None? ==>
      r == GetOr(members, "name", Str(""))
  {
    GetOr(members, "thread_title", GetOr(members, "title", GetOr(members, "name", Str(""))))
  }

  /** `pattern in title`: a substring of a string, an item of a list, a key
      of a dict. */
  function Membership(pattern: string, title: Json): (r: Result<bool, FilterError>)
    ensures title.Str? ==> r == Success(IsSubstring(pattern, title.s))
  {
    match title
    case Str(s) => Success(Contains(pattern, s))
    case Arr(items) => Success(Str(pattern) in items)
    case Obj(members) => Success(exists k :: 0 <= k < |members| && members[k].0 == pattern)
    case _ => Failure(NotContainer)
  }

  /** The pattern loop: `Success(true)` at the first pattern in the title,
      the error of the first `in` that raises, else `Success(false)`. */
  function FirstMatch(patterns: seq<string>, title: Json): Result<bool, FilterError> {
    if patterns == [] then Success(false)
    else match Membership(patterns[0], title)
      case Failure(e) => Failure(e)
      case Success(found) => if found then Success(true) else FirstMatch(patterns[1..], title)
  }

  function LowerAll(patterns: seq<string>): (r: seq<string>)
  {
    seq(|patterns|, k requires 0 <= k < |patterns| => Lower(patterns[k]))
  }

  /** Whether a walked element is kept: only dicts are, when their title,
      lowered unless the match is case-sensitive, contains a pattern. */
  function KeepThread(thread: Json, patterns: seq<string>, caseSensitive: bool): Result<bool, FilterError> {
    if !thread.Obj? then Success(false)
    else
      var title := TitleOf(thread.members);
      if caseSensitive then FirstMatch(patterns, title)
      else if title.Str? then FirstMatch(LowerAll(patterns), Str(Lower(title.s)))
      else Failure(NoLower)
  }

  /** The kept elements in order, or the first error. */
  function Filtered(threads: seq<Json>, patterns: seq<string>, caseSensitive: bool): Result<seq<Json>, FilterError> {
    if threads == [] then Success([])
    else
      var thread := threads[|threads| - 1];
      match Filtered(threads[..|threads| - 1], patterns, caseSensitive)
      case Failure(e) => Failure(e)
      case Success(kept) =>
        match KeepThread(thread, patterns, caseSensitive)
        case Failure(e) => Failure(e)
        case Success(keep) => Success(if keep then kept + [thread] else kept)
  }

  /** The list `filter_threads_by_title` returns, or the error it raises. */
  function ThreadsByTitle(data: Json, patterns: Option<seq<string>>, caseSensitive: bool): Result<seq<Json>, FilterError> {
    var pats := patterns.GetOr(DefaultPatterns);
    match Elements(Container(data))
    case Failure(e) => Failure(e)
    case Success(threads) => Filtered(threads, pats, caseSensitive)
  }

  // ------------------------------------------------------------ the loop

  /** The pattern loop over one title, left at the first pattern found. */
  method MatchPatterns(patterns: seq<string>, title: Json) returns (r: Result<bool, FilterError>)
    ensures r == FirstMatch(patterns, title)
  {
    var k := 0;
    while k < |patterns|
      invariant k <= |patterns|
      invariant FirstMatch(patterns, title) == FirstMatch(patterns[k..], title)
    {
      var found := Membership(patterns[k], title);
      if found.Failure? {
        return Failure(found.error);
      }
      if found.value {
        return Success(true);
      }
      assert patterns[k..][1..] == patterns[k + 1..];
      k := k + 1;
    }
    return Success(false);
  }

  /** The checks made on one walked element. */
  method CheckThread(thread: Json, patterns: seq<string>, caseSensitive: bool) returns (r: Result<bool, FilterError>)
    ensures r == KeepThread(thread, patterns, caseSensitive)
  {
    if !thread.Obj? {
      return Success(false);
    }
    var title := TitleOf(thread.members);
    if !caseSensitive && !title.Str? {
      return Failure(NoLower);
    }
    var titleToCheck := if caseSensitive then title else Str(Lower(title.s));
    var patternsToCheck := if caseSensitive then patterns else LowerAll(patterns);
    r := MatchPatterns(patternsToCheck, titleToCheck);
  }

  /** `filter_threads_by_title` on the loaded document. */
  method FilterThreadsByTitle(data: Json, patterns: Option<seq<string>>, caseSensitive: bool)
    returns (r: Result<seq<Json>, FilterError>)
    ensures r == ThreadsByTitle(data, patterns, caseSensitive)
  {
    var pats := if patterns.None? then DefaultPatterns else patterns.value;
    var walked := Elements(Container(data));
    if walked.Failure? {
      return Failure(walked.error);
    }
    var threads := walked.value;
    var filtered: seq<Json> := [];
    var i := 0;
    while i < |threads|
      invariant i <= |threads|
      invariant Filtered(threads[..i], pats, caseSensitive) == Success(filtered)
    {
      FilteredStep(threads, i, pats, caseSensitive);
      var keep := CheckThread(threads[i], pats, caseSensitive);
      if keep.Failure? {
        FailureStays(threads, i + 1, pats, caseSensitive);
        return Failure(keep.error);
      }
      if keep.value {
        filtered := filtered + [threads[i]];
      }
      i := i + 1;
    }
    assert threads[..i] == threads;
    return Success(filtered);
  }

  // ------------------------------------------------------------ properties

  /** One more walked element. */
  lemma FilteredStep(threads: seq<Json>, i: nat, patterns: seq<string>, caseSensitive: bool)
    requires i < |threads|
    ensures Filtered(threads[..i + 1], patterns, caseSensitive) ==
      match Filtered(threads[..i], patterns, caseSensitive)
      case Failure(e) => Failure(e)
      case Success(kept) =>
        match KeepThread(threads[i], patterns, caseSensitive)
        case Failure(e) => Failure(e)
        case Success(keep) => Success(if keep then kept + [threads[i]] else kept)
  {
    assert threads[..i + 1][..i] == threads[..i];
  }

  /** The first error ends the walk: it is the error of the whole list. */
  lemma {:induction false} FailureStays(threads: seq<Json>, j: nat, patterns: seq<string>, caseSensitive: bool)
    requires j <= |threads| && Filtered(threads[..j], patterns, caseSensitive).Failure?
    ensures Filtered(threads, patterns, caseSensitive) == Filtered(threads[..j], patterns, caseSensitive)
    decreases |threads| - j
  {
    if j < |threads| {
      FilteredStep(threads, j, patterns, caseSensitive);
      FailureStays(threads, j + 1, patterns, caseSensitive);
    } else {
      assert threads[..j] == threads;
    }
  }

  /** A pattern list matches a string title exactly when some pattern is a
      substring of it. */
  lemma {:induction false} FirstMatchOnString(patterns: seq<string>, s: string)
    ensures FirstMatch(patterns, Str(s)) ==
      Success(exists k :: 0 <= k < |patterns| && IsSubstring(patterns[k], s))
  {
    if patterns != [] {
      FirstMatchOnString(patterns[1..], s);
      assert forall k :: 1 <= k < |patterns| ==> patterns[k] == patterns[1..][k - 1];
      if !IsSubstring(patterns[0], s) {
        assert forall k :: 0 <= k < |patterns[1..]| ==> patterns[1..][k] == patterns[k + 1];
      }
    }
  }

  /** The match rule for a dict with a string title: kept exactly when some
      pattern is in the title, both lowered unless the match is
      case-sensitive. */
  lemma MatchRule(thread: Json, patterns: seq<string>, caseSensitive: bool)
    requires thread.Obj? && TitleOf(thread.members).Str?
    ensures var title := TitleOf(thread.members).s;
      KeepThread(thread, patterns, caseSensitive) ==
        if caseSensitive then Success(exists k :: 0 <= k < |patterns| && IsSubstring(patterns[k], title))
        else Success(exists k :: 0 <= k < |patterns| && IsSubstring(Lower(patterns[k]), Lower(title)))
  {
    var title := TitleOf(thread.members).s;
    if caseSensitive {
      FirstMatchOnString(patterns, title);
    } else {
      var lowered := LowerAll(patterns);
      assert |lowered| == |patterns| && forall k :: 0 <= k < |patterns| ==> lowered[k] == Lower(patterns[k]);
      FirstMatchOnString(lowered, Lower(title));
      assert (exists k :: 0 <= k < |lowered| && IsSubstring(lowered[k], Lower(title))) <==>
             (exists k :: 0 <= k < |patterns| && IsSubstring(Lower(patterns[k]), Lower(title)));
    }
  }

  /** Only dicts are kept: every other element is skipped, never an error. */
  lemma NonDictSkipped(thread: Json, patterns: seq<string>, caseSensitive: bool)
    requires !thread.Obj?
    ensures KeepThread(thread, patterns, caseSensitive) == Success(false)
  {
  }

  /** The walk succeeds exactly when every element's check does. */
  lemma {:induction false} FilteredSucceeds(threads: seq<Json>, patterns: seq<string>, caseSensitive: bool)
    ensures Filtered(threads, patterns, caseSensitive).Success? <==>
      forall k :: 0 <= k < |threads| ==> KeepThread(threads[k], patterns, caseSensitive).Success?
  {
    if threads != [] {
      var init := threads[..|threads| - 1];
      FilteredSucceeds(init, patterns, caseSensitive);
      assert forall k :: 0 <= k < |init| ==> init[k] == threads[k];
    }
  }

  /** A successful walk keeps, in order, exactly the elements that are dicts
      whose title matches. */
  lemma {:induction false} FilteredKeepsMatches(threads: seq<Json>, patterns: seq<string>, caseSensitive: bool)
    requires Filtered(threads, patterns, caseSensitive).Success?
    ensures var kept := Filtered(threads, patterns, caseSensitive).value;
      && IsSubsequence(kept, threads)
      && forall x :: x in kept <==>
           x in threads && x.Obj? && KeepThread(x, patterns, caseSensitive) == Success(true)
  {
    if threads != [] {
      var init, last := threads[..|threads| - 1], threads[|threads| - 1];
      FilteredKeepsMatches(init, patterns, caseSensitive);
      var keep := KeepThread(last, patterns, caseSensitive).value;
      SubsequenceExtend(Filtered(init, patterns, caseSensitive).value, init, last, keep);
      assert init + [last] == threads;
      FilteredSucceeds(threads, patterns, caseSensitive);
      forall x | x in threads
        ensures KeepThread(x, patterns, caseSensitive).Success?
      {
        var k :| 0 <= k < |threads| && threads[k] == x;
      }
    }
  }

  /** No patterns given means the patterns "xtb" and "trn". */
  lemma DefaultPatternsUsed(data: Json, caseSensitive: bool)
    ensures ThreadsByTitle(data, None, caseSensitive) == ThreadsByTitle(data, Some(["xtb", "trn"]), caseSensitive)
  {
  }
}
