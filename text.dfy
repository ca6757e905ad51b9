/** Character classes, case mapping and small string operations of Python's
    `str` and `re`, as far as the scraper relies on them. Digits are the ASCII
    digits; letters with case are the ASCII letters and the Polish letters. */
module Text {

  // ---------------------------------------------------------------- digits

  predicate IsDigit(c: char) { '0' <= c <= '9' }

  function DigitValue(c: char): (v: nat)
    requires IsDigit(c)
    ensures v <= 9
  {
    c as int - '0' as int
  }

  function DigitChar(v: nat): (c: char)
    requires v <= 9
    ensures IsDigit(c) && DigitValue(c) == v
  {
    ('0' as int + v) as char
  }

  predicate AllDigits(s: string) {
    forall i :: 0 <= i < |s| ==> IsDigit(s[i])
  }

  /** `int(s)` for a string of decimal digits. */
  function DecimalValue(s: string): nat
    requires AllDigits(s)
  {
    if s == [] then 0 else DecimalValue(s[..|s| - 1]) * 10 + DigitValue(s[|s| - 1])
  }

  /** `str(n)`: the decimal digits of `n`, without leading zeros. */
  function NatToDecimal(n: nat): (s: string)
    ensures s != [] && AllDigits(s)
    ensures DecimalValue(s) == n
    ensures |s| > 1 ==> s[0] != '0'
  {
    if n < 10 then [DigitChar(n)]
    else
      var r := NatToDecimal(n / 10) + [DigitChar(n % 10)];
      assert r[..|r| - 1] == NatToDecimal(n / 10);
      r
  }

  function Pow10(w: nat): (p: nat)
    ensures p >= 1
  {
    if w == 0 then 1 else 10 * Pow10(w - 1)
  }

  /** The last `w` decimal digits of `v`, zero-padded (`'%0*d' % (w, v)` for
      `v < 10^w`), as `datetime.isoformat` and friends write date fields. */
  function Pad(v: nat, w: nat): (s: string)
    ensures |s| == w && AllDigits(s)
    ensures v < Pow10(w) ==> DecimalValue(s) == v
  {
    if w == 0 then []
    else
      var r := Pad(v / 10, w - 1) + [DigitChar(v % 10)];
      assert r[..|r| - 1] == Pad(v / 10, w - 1);
      r
  }

  // ---------------------------------------------------------- whitespace

  /** Python's `str.isspace()`, which is also the `\s` class of `re` on
      `str` patterns and what `str.strip()` removes. */
  predicate IsSpace(c: char) {
    || ('\t' <= c <= '\r')
    || ('\U{1C}' <= c <= ' ')
    || c == '\U{85}' || c == '\U{A0}' || c == '\U{1680}'
    || ('\U{2000}' <= c <= '\U{200A}')
    || c == '\U{2028}' || c == '\U{2029}' || c == '\U{202F}'
    || c == '\U{205F}' || c == '\U{3000}'
  }

  // ------------------------------------------------------ letters and case

  predicate IsAsciiLetter(c: char) { ('a' <= c <= 'z') || ('A' <= c <= 'Z') }

  /** Ą Ć Ę Ł Ń Ó Ś Ź Ż */
  const PolishUpper: string := "\U{104}\U{106}\U{118}\U{141}\U{143}\U{D3}\U{15A}\U{179}\U{17B}"
  /** ą ć ę ł ń ó ś ź ż, in the same order */
  const PolishLower: string := "\U{105}\U{107}\U{119}\U{142}\U{144}\U{F3}\U{15B}\U{17A}\U{17C}"

  /** The `\w` class of `re`: letters, digits and the underscore. */
  predicate IsWordChar(c: char) {
    IsAsciiLetter(c) || IsDigit(c) || c == '_' || c in PolishUpper || c in PolishLower
  }

  function IndexIn(c: char, s: string): (k: nat)
    requires c in s
    ensures k < |s| && s[k] == c
  {
    if s[0] == c then 0 else 1 + IndexIn(c, s[1..])
  }

  function LowerChar(c: char): char {
    if 'A' <= c <= 'Z' then (c as int + 32) as char
    else if c in PolishUpper then PolishLower[IndexIn(c, PolishUpper)]
    else c
  }

  function UpperChar(c: char): char {
    if 'a' <= c <= 'z' then (c as int - 32) as char
    else if c in PolishLower then PolishUpper[IndexIn(c, PolishLower)]
    else c
  }

  /** `s.lower()`: no upper-case letter is left. */
  function Lower(s: string): (r: string)
    ensures |r| == |s| && forall i :: 0 <= i < |s| ==> r[i] == LowerChar(s[i])
    ensures forall i :: 0 <= i < |r| ==> !('A' <= r[i] <= 'Z') && r[i] !in PolishUpper
  {
    forall c | c in s
      ensures !('A' <= LowerChar(c) <= 'Z') && LowerChar(c) !in PolishUpper
    {
      LowerCharIsLower(c);
    }
    seq(|s|, i requires 0 <= i < |s| => LowerChar(s[i]))
  }

  /** `s.upper()`: no lower-case letter is left. */
  function Upper(s: string): (r: string)
    ensures |r| == |s| && forall i :: 0 <= i < |s| ==> r[i] == UpperChar(s[i])
    ensures forall i :: 0 <= i < |r| ==> !('a' <= r[i] <= 'z') && r[i] !in PolishLower
  {
    forall c | c in s
      ensures !('a' <= UpperChar(c) <= 'z') && UpperChar(c) !in PolishLower
    {
      UpperCharIsUpper(c);
    }
    seq(|s|, i requires 0 <= i < |s| => UpperChar(s[i]))
  }

  /** The Polish letters lie above the ASCII range, and each case has nine
      distinct letters. */
  lemma PolishLetters()
    ensures forall k :: 0 <= k < |PolishUpper| ==> PolishUpper[k] > 'z' && PolishUpper[k] !in PolishLower
    ensures forall k :: 0 <= k < |PolishLower| ==> PolishLower[k] > 'z' && PolishLower[k] !in PolishUpper
    ensures forall j, k :: 0 <= j < k < |PolishUpper| ==> PolishUpper[j] != PolishUpper[k]
    ensures forall j, k :: 0 <= j < k < |PolishLower| ==> PolishLower[j] != PolishLower[k]
    ensures |PolishUpper| == |PolishLower|
  {
  }

  lemma LowerCharIsLower(c: char)
    ensures !('A' <= LowerChar(c) <= 'Z') && LowerChar(c) !in PolishUpper
  {
    PolishLetters();
    if 'A' <= c <= 'Z' {
      assert 'a' <= LowerChar(c) <= 'z';
    }
  }

  lemma UpperCharIsUpper(c: char)
    ensures !('a' <= UpperChar(c) <= 'z') && UpperChar(c) !in PolishLower
  {
    PolishLetters();
    if 'a' <= c <= 'z' {
      assert 'A' <= UpperChar(c) <= 'Z';
    }
  }

  /** The index of a letter of a string of distinct letters is its position. */
  lemma IndexOfDistinct(s: string, k: nat)
    requires k < |s| && forall i, j :: 0 <= i < j < |s| ==> s[i] != s[j]
    ensures IndexIn(s[k], s) == k
  {
    if k > 0 {
      IndexOfDistinct(s[1..], k - 1);
    }
  }

  /** Upper-casing the lower case of a character is upper-casing it. */
  lemma UpperOfLowerChar(c: char)
    ensures UpperChar(LowerChar(c)) == UpperChar(c)
  {
    PolishLetters();
    if c in PolishUpper {
      var k := IndexIn(c, PolishUpper);
      IndexOfDistinct(PolishLower, k);
    }
  }

  /** Lowering a string twice is lowering it once. */
  lemma LowerIdempotent(s: string)
    ensures Lower(Lower(s)) == Lower(s)
  {
    forall i | 0 <= i < |s|
      ensures LowerChar(LowerChar(s[i])) == LowerChar(s[i])
    {
      LowerCharIdempotent(s[i]);
    }
  }

  /** Upper-casing ignores an earlier lower-casing, so comparing two strings
      "both upper-cased" does not depend on their original case. */
  lemma UpperOfLower(s: string)
    ensures Upper(Lower(s)) == Upper(s)
  {
    forall i | 0 <= i < |s|
      ensures UpperChar(LowerChar(s[i])) == UpperChar(s[i])
    {
      UpperOfLowerChar(s[i]);
    }
  }

  /** Lower-case ASCII letters are their own lower case. */
  lemma LowerOfAsciiLower(s: string)
    requires forall j :: 0 <= j < |s| ==> 'a' <= s[j] <= 'z'
    ensures Lower(s) == s
  {
    forall j | 0 <= j < |s|
      ensures LowerChar(s[j]) == s[j]
    {
      assert forall k :: 0 <= k < |PolishUpper| ==> PolishUpper[k] > 'z';
    }
  }

  /** Lowering a character twice is lowering it once. */
  lemma LowerCharIdempotent(c: char)
    ensures LowerChar(LowerChar(c)) == LowerChar(c)
  {
    PolishLetters();
  }

  // ------------------------------------------------------------ substrings

  /** `p` occurs in `s` at index `i`. */
  predicate OccursAt(p: string, s: string, i: nat) {
    i + |p| <= |s| && s[i..i + |p|] == p
  }

  /** Python's `p in s` on two strings. */
  predicate IsSubstring(p: string, s: string) {
    exists i: nat :: i <= |s| && OccursAt(p, s, i)
  }

  /** `p` occurs in `s` at `i` or later. */
  predicate OccursFrom(p: string, s: string, i: nat) {
    exists j: nat :: i <= j <= |s| && OccursAt(p, s, j)
  }

  /** Python's `p in s`, computed by trying each start from `i` on. */
  function ContainsFrom(p: string, s: string, i: nat): (r: bool)
    requires i <= |s|
    ensures r <==> OccursFrom(p, s, i)
    decreases |s| - i
  {
    if OccursAt(p, s, i) then true
    else if i == |s| then false
    else
      var r := ContainsFrom(p, s, i + 1);
      assert OccursFrom(p, s, i) ==> OccursFrom(p, s, i + 1) by {
        if OccursFrom(p, s, i) {
          var j: nat :| i <= j <= |s| && OccursAt(p, s, j);
          assert j != i;
        }
      }
      r
  }

  function Contains(p: string, s: string): (r: bool)
    ensures r <==> IsSubstring(p, s)
  {
    var r := ContainsFrom(p, s, 0);
    assert r ==> IsSubstring(p, s) by {
      if r {
        var j: nat :| j <= |s| && OccursAt(p, s, j);
      }
    }
    r
  }

  // ----------------------------------------------------------------- runs

  /** The character classes `\d`, `\s` and `\w` of the regular expressions. */
  datatype CharClass = Digit | Space | Word

  predicate InClass(c: char, k: CharClass) {
    match k
    case Digit => IsDigit(c)
    case Space => IsSpace(c)
    case Word => IsWordChar(c)
  }

  /** Length of the longest run of class `k` starting at `i`: what a greedy
      `\d+`, `\s+` or `\w+` consumes there. */
  function Run(s: string, i: nat, k: CharClass): (n: nat)
    requires i <= |s|
    ensures i + n <= |s|
    ensures forall j :: i <= j < i + n ==> InClass(s[j], k)
    ensures i + n == |s| || !InClass(s[i + n], k)
    decreases |s| - i
  {
    if i < |s| && InClass(s[i], k) then 1 + Run(s, i + 1, k) else 0
  }

  /** A run is determined by where the class stops. */
  lemma {:induction false} RunExact(s: string, i: nat, n: nat, k: CharClass)
    requires i + n <= |s|
    requires forall j :: i <= j < i + n ==> InClass(s[j], k)
    requires i + n == |s| || !InClass(s[i + n], k)
    ensures Run(s, i, k) == n
    decreases n
  {
    if n > 0 {
      assert InClass(s[i], k);
      RunExact(s, i + 1, n - 1, k);
    }
  }

  /** Every character of `s` is of class `k`. */
  predicate AllIn(s: string, k: CharClass) {
    forall j :: 0 <= j < |s| ==> InClass(s[j], k)
  }

  lemma DigitsAllIn(s: string)
    requires AllDigits(s)
    ensures AllIn(s, Digit)
  {
  }

  /** A run of class `k` stops where a character outside the class follows. */
  lemma RunOfPrefix(t: string, rest: string, k: CharClass)
    requires AllIn(t, k)
    requires rest == [] || !InClass(rest[0], k)
    ensures Run(t + rest, 0, k) == |t|
  {
    var s := t + rest;
    forall j | 0 <= j < |t|
      ensures InClass(s[j], k)
    {
      assert s[j] == t[j];
    }
    if rest != [] {
      assert s[|t|] == rest[0];
    }
    RunExact(s, 0, |t|, k);
  }

  /** No character of a word (`\w`) is whitespace. */
  lemma WordCharNotSpace(c: char)
    ensures IsWordChar(c) ==> !IsSpace(c)
  {
    if c in PolishUpper || c in PolishLower {
      PolishLetterRange(c);
    }
  }

  /** The Polish letters lie between Ó and ż. */
  lemma PolishLetterRange(c: char)
    requires c in PolishUpper || c in PolishLower
    ensures '\U{D3}' <= c <= '\U{17C}'
  {
    if c in PolishUpper {
      var k := IndexIn(c, PolishUpper);
    } else {
      var k := IndexIn(c, PolishLower);
    }
  }

  // ---------------------------------------------------- whitespace counts

  predicate NoSpace(s: string) {
    forall j :: 0 <= j < |s| ==> !IsSpace(s[j])
  }

  /** At most one character of `s` is whitespace. */
  predicate AtMostOneSpace(s: string) {
    forall p, q :: 0 <= p < q < |s| && IsSpace(s[p]) ==> !IsSpace(s[q])
  }

  lemma NoSpaceJoin(a: string, b: string)
    requires NoSpace(a) && NoSpace(b)
    ensures NoSpace(a + b)
  {
    forall j | 0 <= j < |a + b|
      ensures !IsSpace((a + b)[j])
    {
      if j >= |a| {
        assert (a + b)[j] == b[j - |a|];
      }
    }
  }

  lemma OneSpaceJoin(a: string, b: string)
    requires NoSpace(a) && AtMostOneSpace(b)
    ensures AtMostOneSpace(a + b)
  {
    var s := a + b;
    forall p, q | 0 <= p < q < |s| && IsSpace(s[p])
      ensures !IsSpace(s[q])
    {
      assert p >= |a| && s[p] == b[p - |a|] && s[q] == b[q - |a|];
    }
  }

  lemma OneSpaceFront(c: char, b: string)
    requires NoSpace(b)
    ensures AtMostOneSpace([c] + b)
  {
    var s := [c] + b;
    forall p, q | 0 <= p < q < |s| && IsSpace(s[p])
      ensures !IsSpace(s[q])
    {
      assert s[q] == b[q - 1];
    }
  }

  lemma DigitsNoSpace(s: string)
    requires AllDigits(s)
    ensures NoSpace(s)
  {
  }

  // ---------------------------------------------------------------- strip

  function StripStart(s: string): (r: string)
    ensures |r| <= |s| && r == s[|s| - |r|..]
    ensures forall i :: 0 <= i < |s| - |r| ==> IsSpace(s[i])
    ensures r == [] || !IsSpace(r[0])
  {
    if s != [] && IsSpace(s[0]) then StripStart(s[1..]) else s
  }

  function StripEnd(s: string): (r: string)
    ensures |r| <= |s| && r == s[..|r|]
    ensures forall i :: |r| <= i < |s| ==> IsSpace(s[i])
    ensures r == [] || !IsSpace(r[|r| - 1])
  {
    if s != [] && IsSpace(s[|s| - 1]) then StripEnd(s[..|s| - 1]) else s
  }

  /** `r` is `s[k..k + |r|]` and everything of `s` around it is whitespace. */
  predicate TrimmedAt(s: string, r: string, k: nat) {
    && k + |r| <= |s| && r == s[k..k + |r|]
    && (forall i :: 0 <= i < k ==> IsSpace(s[i]))
    && (forall i :: k + |r| <= i < |s| ==> IsSpace(s[i]))
  }

  /** `s.strip()`: the slice left after removing the whitespace at both ends. */
  function Strip(s: string): (r: string)
    ensures exists k: nat :: TrimmedAt(s, r, k)
    ensures r == [] || (!IsSpace(r[0]) && !IsSpace(r[|r| - 1]))
  {
    var a := StripStart(s);
    var r := StripEnd(a);
    var k := |s| - |a|;
    assert r == s[k..k + |r|];
    assert forall i :: k + |r| <= i < |s| ==> s[i] == a[i - k];
    assert TrimmedAt(s, r, k);
    r
  }

  /** A string without whitespace at its ends is its own strip. */
  lemma StripUntouched(s: string)
    requires s == [] || (!IsSpace(s[0]) && !IsSpace(s[|s| - 1]))
    ensures Strip(s) == s
  {
  }
}
