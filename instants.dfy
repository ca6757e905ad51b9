/** Timezone-aware UTC instants (`datetime(..., tzinfo=timezone.utc)`), to
    the second, ordered as Python orders aware datetimes. */
module Instants {

  datatype Instant = Instant(year: int, month: int, day: int, hour: int, minute: int, second: int)

  predicate IsLeapYear(y: int) {
    y % 4 == 0 && (y % 100 != 0 || y % 400 == 0)
  }

  function DaysInMonth(y: int, m: int): (n: int)
    requires 1 <= m <= 12
    ensures 28 <= n <= 31
    ensures n == 29 <==> m == 2 && IsLeapYear(y)
  {
    if m == 2 then (if IsLeapYear(y) then 29 else 28)
    else if m == 4 || m == 6 || m == 9 || m == 11 then 30
    else 31
  }

  /** What the `datetime` constructor accepts (years 1 to 9999 of the proleptic
      Gregorian calendar); anything else makes it raise `ValueError`. */
  predicate Valid(t: Instant) {
    && 1 <= t.year <= 9999
    && 1 <= t.month <= 12
    && 1 <= t.day <= DaysInMonth(t.year, t.month)
    && 0 <= t.hour <= 23
    && 0 <= t.minute <= 59
    && 0 <= t.second <= 59
  }

  /** `datetime(2000, 1, 1, tzinfo=timezone.utc)`: the watermark of a first run. */
  const Epoch: Instant := Instant(2000, 1, 1, 0, 0, 0)

  function Key(t: Instant): seq<int> {
    [t.year, t.month, t.day, t.hour, t.minute, t.second]
  }

  /** Lexicographic order on equally long sequences of integers. */
  predicate LexLess(a: seq<int>, b: seq<int>)
    requires |a| == |b|
  {
    a != [] && (a[0] < b[0] || (a[0] == b[0] && LexLess(a[1..], b[1..])))
  }

  /** `a < b` on two aware datetimes. */
  predicate Before(a: Instant, b: Instant) {
    LexLess(Key(a), Key(b))
  }

  lemma {:induction false} LexLessIrreflexive(a: seq<int>)
    ensures !LexLess(a, a)
  {
    if a != [] {
      LexLessIrreflexive(a[1..]);
    }
  }

  lemma {:induction false} LexLessTransitive(a: seq<int>, b: seq<int>, c: seq<int>)
    requires |a| == |b| == |c|
    requires LexLess(a, b) && LexLess(b, c)
    ensures LexLess(a, c)
  {
    if a[0] == b[0] && b[0] == c[0] {
      LexLessTransitive(a[1..], b[1..], c[1..]);
    }
  }

  lemma {:induction false} LexLessTotal(a: seq<int>, b: seq<int>)
    requires |a| == |b|
    ensures a == b || LexLess(a, b) || LexLess(b, a)
  {
    if a != [] && a[0] == b[0] {
      LexLessTotal(a[1..], b[1..]);
      if a[1..] == b[1..] {
        assert a == [a[0]] + a[1..] && b == [b[0]] + b[1..];
      }
    }
  }

  /** `Before` is a strict total order on instants. */
  lemma BeforeIsStrictTotalOrder(a: Instant, b: Instant, c: Instant)
    ensures !Before(a, a)
    ensures Before(a, b) ==> !Before(b, a)
    ensures Before(a, b) && Before(b, c) ==> Before(a, c)
    ensures a == b || Before(a, b) || Before(b, a)
  {
    LexLessIrreflexive(Key(a));
    if Before(a, b) && Before(b, a) {
      LexLessTransitive(Key(a), Key(b), Key(a));
    }
    if Before(a, b) && Before(b, c) {
      LexLessTransitive(Key(a), Key(b), Key(c));
    }
    LexLessTotal(Key(a), Key(b));
    if Key(a) == Key(b) {
      assert a.year == Key(a)[0] && a.second == Key(a)[5];
    }
  }

  /** "At or after" is transitive. */
  lemma NotBeforeTransitive(a: Instant, b: Instant, c: Instant)
    requires !Before(a, b) && !Before(b, c)
    ensures !Before(a, c)
  {
    BeforeIsStrictTotalOrder(a, c, b);
    BeforeIsStrictTotalOrder(b, c, a);
    BeforeIsStrictTotalOrder(c, b, a);
  }

  /** The later of two instants (`b` when `b > a`, else `a`). */
  function Latest(a: Instant, b: Instant): (r: Instant)
    ensures r == a || r == b
    ensures !Before(r, a) && !Before(r, b)
  {
    BeforeIsStrictTotalOrder(a, b, a);
    BeforeIsStrictTotalOrder(b, a, b);
    if Before(a, b) then b else a
  }
}
