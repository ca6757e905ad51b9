/** Optional values, results and sequence helpers shared by every module of
    the model. */
module Wrappers {

  /** A value that may be absent (Python's `None`). */
  datatype Option<+T> = None | Some(value: T) {
    function GetOr(default: T): T {
      match this
      case Some(v) => v
      case None => default
    }
  }

  /** The outcome of an operation that can raise an exception in the source. */
  datatype Result<+R, +E> = Success(value: R) | Failure(error: E)

  /** The elements of all the sequences, one sequence after the other (the
      items of all pages, page after page). */
  function Flatten<T>(parts: seq<seq<T>>): seq<T> {
    if parts == [] then [] else Flatten(parts[..|parts| - 1]) + parts[|parts| - 1]
  }

  /** `sub` can be obtained from `s` by deleting elements: order is kept and
      no element is used twice. */
  ghost predicate IsSubsequence<T>(sub: seq<T>, s: seq<T>)
    decreases |s|
  {
    if sub == [] then true
    else if s == [] then false
    else if sub[|sub| - 1] == s[|s| - 1] then IsSubsequence(sub[..|sub| - 1], s[..|s| - 1])
    else IsSubsequence(sub, s[..|s| - 1])
  }

  /** Keeping the last element of `s` or not keeps a subsequence a subsequence. */
  lemma {:induction false} SubsequenceExtend<T>(sub: seq<T>, s: seq<T>, x: T, keep: bool)
    requires IsSubsequence(sub, s)
    ensures IsSubsequence(if keep then sub + [x] else sub, s + [x])
  {
    if keep {
      assert (sub + [x])[..|sub|] == sub;
      assert (s + [x])[..|s|] == s;
    } else {
      SubsequenceWeaken(sub, s, x);
    }
  }

  /** A subsequence minus its last element is still a subsequence. */
  lemma {:induction false} SubsequenceDropLast<T>(sub: seq<T>, s: seq<T>)
    requires sub != [] && IsSubsequence(sub, s)
    ensures IsSubsequence(sub[..|sub| - 1], s)
    decreases |s|, 0
  {
    if sub[|sub| - 1] == s[|s| - 1] {
      SubsequenceWeaken(sub[..|sub| - 1], s[..|s| - 1], s[|s| - 1]);
      assert s[..|s| - 1] + [s[|s| - 1]] == s;
    } else {
      SubsequenceDropLast(sub, s[..|s| - 1]);
      SubsequenceWeaken(sub[..|sub| - 1], s[..|s| - 1], s[|s| - 1]);
      assert s[..|s| - 1] + [s[|s| - 1]] == s;
    }
  }

  /** Appending to the larger sequence keeps a subsequence a subsequence. */
  lemma {:induction false} SubsequenceWeaken<T>(sub: seq<T>, s: seq<T>, x: T)
    requires IsSubsequence(sub, s)
    ensures IsSubsequence(sub, s + [x])
    decreases |s|, 1
  {
    assert (s + [x])[..|s|] == s;
    if sub != [] && sub[|sub| - 1] == x {
      SubsequenceDropLast(sub, s);
    }
  }
}
