/** `parse_date` (script0.1.py): a forum date string to an optional UTC
    instant. The long Polish form is tried first, then four numeric formats in
    a fixed order; the first success wins and anything else gives `None`. */
module DateParse {
  import opened Wrappers
  import opened Text
  import opened Instants

  // ------------------------------------------------------ the Polish form

  /** The month-name table: genitive, nominative and three-letter names. */
  const PolishMonths: map<string, int> := map[
    "stycznia" := 1, "stycze\U{144}" := 1, "sty" := 1,
    "lutego" := 2, "luty" := 2, "lut" := 2,
    "marca" := 3, "marzec" := 3, "mar" := 3,
    "kwietnia" := 4, "kwiecie\U{144}" := 4, "kwi" := 4,
    "maja" := 5, "maj" := 5,
    "czerwca" := 6, "czerwiec" := 6, "cze" := 6,
    "lipca" := 7, "lipiec" := 7, "lip" := 7,
    "sierpnia" := 8, "sierpie\U{144}" := 8, "sie" := 8,
    "wrze\U{15B}nia" := 9, "wrzesie\U{144}" := 9, "wrz" := 9,
    "pa\U{17A}dziernika" := 10, "pa\U{17A}dziernik" := 10, "pa\U{17A}" := 10,
    "listopada" := 11, "listopad" := 11, "lis" := 11,
    "grudnia" := 12, "grudzie\U{144}" := 12, "gru" := 12
  ]

  /** The five groups of `(\d{1,2})\s+(\w+)\s+(\d{4}),?\s+(\d{1,2}):(\d{2})`. */
  datatype LongForm = LongForm(day: string, monthName: string, year: string, hour: string, minute: string)

  predicate WellFormed(f: LongForm) {
    && AllDigits(f.day) && AllDigits(f.year) && AllDigits(f.hour) && AllDigits(f.minute)
    && 1 <= |f.day| <= 2 && |f.year| == 4 && 1 <= |f.hour| <= 2 && |f.minute| == 2
    && f.monthName != []
  }

  function Min(a: nat, b: nat): nat { if a < b then a else b }

  /** A greedy `\d{lo,hi}`, `\s+` or `\w+` at the start of `s` (`hi` is `|s|`
      for the unbounded ones): the characters it takes and the rest, or
      nothing when fewer than `lo` characters of the class are there. */
  function Token(s: string, k: CharClass, lo: nat, hi: nat): (r: Option<(string, string)>)
    ensures r.Some? ==> lo <= |r.value.0| <= hi && r.value.0 + r.value.1 == s && AllIn(r.value.0, k)
    ensures r.Some? && k == Digit ==> AllDigits(r.value.0)
  {
    var n := Min(Run(s, 0, k), hi);
    if n < lo then None
    else
      assert s[..n] + s[n..] == s;
      Some((s[..n], s[n..]))
  }

  /** A token is exactly the run of its class when the class stops after it. */
  lemma TokenExact(t: string, rest: string, k: CharClass, lo: nat, hi: nat)
    requires AllIn(t, k) && lo <= |t| <= hi
    requires rest == [] || !InClass(rest[0], k)
    ensures Token(t + rest, k, lo, hi) == Some((t, rest))
  {
    RunOfPrefix(t, rest, k);
    assert (t + rest)[..|t|] == t && (t + rest)[|t|..] == rest;
  }

  /** The long-form pattern matched at the start of `s`. Every part of the
      pattern has exactly one way to match here: a greedy `\s+` or `\w+`
      cannot give back a character, because what follows it cannot start with
      that character, and `\d{1,2}` taking one digit where two are present
      leaves a digit where whitespace or `:` is required. So backtracking
      finds nothing this does not. */
  function MatchLongForm(s: string): (m: Option<LongForm>)
    ensures m.Some? ==> WellFormed(m.value)
  {
    match Token(s, Digit, 1, 2)
    case None => None
    case Some((day, r1)) =>
      match Token(r1, Space, 1, |r1|)
      case None => None
      case Some((_, r2)) => MatchNameYear(day, r2)
  }

  /** `(\w+)\s+(\d{4})` at the start of `s`, after the day and its blank. */
  function MatchNameYear(day: string, s: string): (m: Option<LongForm>)
    ensures m.Some? ==> m.value.day == day && m.value.monthName != []
    ensures m.Some? ==> AllDigits(m.value.year) && |m.value.year| == 4
    ensures m.Some? ==> AllDigits(m.value.hour) && 1 <= |m.value.hour| <= 2
    ensures m.Some? ==> AllDigits(m.value.minute) && |m.value.minute| == 2
  {
    match Token(s, Word, 1, |s|)
    case None => None
    case Some((name, r3)) =>
      match Token(r3, Space, 1, |r3|)
      case None => None
      case Some((_, r4)) =>
        match Token(r4, Digit, 4, 4)
        case None => None
        case Some((year, r5)) => MatchTime(LongForm(day, name, year, "", ""), r5)
  }

  /** `,?\s+(\d{1,2}):(\d{2})` at the start of `s`, just after the year,
      completing the groups of `f`. */
  function MatchTime(f: LongForm, s: string): (m: Option<LongForm>)
    ensures m.Some? ==> m.value.(hour := "", minute := "") == f.(hour := "", minute := "")
    ensures m.Some? ==> AllDigits(m.value.hour) && 1 <= |m.value.hour| <= 2
    ensures m.Some? ==> AllDigits(m.value.minute) && |m.value.minute| == 2
  {
    var r6 := if s != [] && s[0] == ',' then s[1..] else s;
    match Token(r6, Space, 1, |r6|)
    case None => None
    case Some((_, r7)) =>
      match Token(r7, Digit, 1, 2)
      case None => None
      case Some((hour, r8)) =>
        if r8 == [] || r8[0] != ':' then None
        else
          match Token(r8[1..], Digit, 2, 2)
          case None => None
          case Some((minute, _)) => Some(f.(hour := hour, minute := minute))
  }

  /** `re.search`: the match at the leftmost position of `s` where there is one. */
  function SearchLongForm(s: string): (m: Option<LongForm>)
    ensures m.Some? ==> WellFormed(m.value)
  {
    var m := MatchLongForm(s);
    if m.Some? || s == [] then m else SearchLongForm(s[1..])
  }

  /** The long form matches at position `i` of `s`. */
  predicate MatchesAt(s: string, i: nat)
    requires i <= |s|
  {
    MatchLongForm(s[i..]).Some?
  }

  /** `re.search` gives the match at the leftmost position where there is
      one, and nothing only when no position matches. */
  lemma {:induction false} SearchIsLeftmost(s: string)
    ensures SearchLongForm(s).None? ==> forall i :: 0 <= i <= |s| ==> !MatchesAt(s, i)
    ensures SearchLongForm(s).Some? ==> exists i :: (0 <= i <= |s| && MatchLongForm(s[i..]) == SearchLongForm(s)
                                          && forall j :: 0 <= j < i ==> !MatchesAt(s, j))
    decreases |s|
  {
    assert s[0..] == s;
    if MatchLongForm(s).None? && s != [] {
      SearchIsLeftmost(s[1..]);
      var m := SearchLongForm(s[1..]);
      assert SearchLongForm(s) == m;
      forall i | 1 <= i <= |s|
        ensures s[1..][i - 1..] == s[i..]
      {
      }
      if m.Some? {
        var i :| 0 <= i <= |s| - 1 && MatchLongForm(s[1..][i..]) == m
                 && forall j :: 0 <= j < i ==> !MatchesAt(s[1..], j);
        assert s[1..][i..] == s[i + 1..];
        forall j | 1 <= j < i + 1
          ensures !MatchesAt(s, j)
        {
          assert !MatchesAt(s[1..], j - 1);
        }
      } else {
        forall j | 1 <= j <= |s|
          ensures !MatchesAt(s, j)
        {
          assert !MatchesAt(s[1..], j - 1);
        }
      }
    }
  }

  /** The month is looked up lower-cased; an unknown name or an impossible
      date (the `datetime` constructor raising) gives nothing. */
  function FromLongForm(f: LongForm): (r: Option<Instant>)
    requires WellFormed(f)
    ensures r.Some? ==> Valid(r.value)
    ensures Lower(f.monthName) !in PolishMonths ==> r.None?
    ensures r.Some? ==> && r.value.month == PolishMonths[Lower(f.monthName)]
                        && r.value.year == DecimalValue(f.year) && r.value.day == DecimalValue(f.day)
                        && r.value.hour == DecimalValue(f.hour) && r.value.minute == DecimalValue(f.minute)
                        && r.value.second == 0
    ensures (Lower(f.monthName) in PolishMonths
             && Valid(Instant(DecimalValue(f.year), PolishMonths[Lower(f.monthName)], DecimalValue(f.day),
                              DecimalValue(f.hour), DecimalValue(f.minute), 0))) ==> r.Some?
  {
    var name := Lower(f.monthName);
    if name !in PolishMonths then None
    else
      var t := Instant(DecimalValue(f.year), PolishMonths[name], DecimalValue(f.day),
                       DecimalValue(f.hour), DecimalValue(f.minute), 0);
      if Valid(t) then Some(t) else None
  }

  // ---------------------------------------------------- numeric formats

  /** The directives of a `strptime` format; `Blank` is a space of the format,
      which `strptime` turns into `\s+`. */
  datatype Directive = Day | Month | Year | Hour | Minute | Second | Lit(c: char) | Blank

  function DayFirstFormat(sep: char): seq<Directive> {
    [Day, Lit(sep), Month, Lit(sep), Year, Blank, Hour, Lit(':'), Minute]
  }

  /** `%Y-%m-%d %H:%M:%S` */
  const IsoFormat: seq<Directive> := [Year, Lit('-'), Month, Lit('-'), Day, Blank, Hour, Lit(':'), Minute, Lit(':'), Second]

  /** `%d.%m.%Y %H:%M`, `%d-%m-%Y %H:%M`, `%Y-%m-%d %H:%M:%S`, `%d/%m/%Y %H:%M`, in the order tried. */
  const Formats: seq<seq<Directive>> := [DayFirstFormat('.'), DayFirstFormat('-'), IsoFormat, DayFirstFormat('/')]

  /** The fields `strptime` leaves at their defaults: 1900-01-01 00:00:00. */
  const StrptimeDefaults: Instant := Instant(1900, 1, 1, 0, 0, 0)

  predicate IsNumeric(d: Directive) {
    d.Day? || d.Month? || d.Hour? || d.Minute? || d.Second?
  }

  /** The regex CPython's `_strptime` uses for a one-or-two-digit directive:
      two digits whose value lies in `lo2..hi2` are tried first, then a single
      digit of value at least `lo1`, and for `%d` also a space and a digit 1-9.
      (`%d` is `3[01]|[12]\d|0[1-9]|[1-9]| [1-9]`, `%m` is `1[0-2]|0[1-9]|[1-9]`,
      `%H` is `2[0-3]|[0-1]\d|\d`, `%M` is `[0-5]\d|\d`, `%S` is `6[0-1]|[0-5]\d|\d`.) */
  datatype FieldRule = FieldRule(lo2: int, hi2: int, lo1: int, spaced: bool)

  function RuleOf(d: Directive): FieldRule
    requires IsNumeric(d)
  {
    match d
    case Day => FieldRule(1, 31, 1, true)
    case Month => FieldRule(1, 12, 1, false)
    case Hour => FieldRule(0, 23, 0, false)
    case Minute => FieldRule(0, 59, 0, false)
    case Second => FieldRule(0, 61, 0, false)
  }

  function Assign(t: Instant, d: Directive, v: int): Instant
    requires IsNumeric(d)
  {
    match d
    case Day => t.(day := v)
    case Month => t.(month := v)
    case Hour => t.(hour := v)
    case Minute => t.(minute := v)
    case Second => t.(second := v)
  }

  /** The first alternative of the field's regex that matches at the start
      of `s`: its value and how many characters it takes. */
  function NumberField(s: string, rule: FieldRule): (r: Option<(int, nat)>)
    ensures r.Some? ==> 0 < r.value.1 <= |s|
  {
    if 1 < |s| && IsDigit(s[0]) && IsDigit(s[1])
       && rule.lo2 <= 10 * DigitValue(s[0]) + DigitValue(s[1]) <= rule.hi2
    then Some((10 * DigitValue(s[0]) + DigitValue(s[1]), 2))
    else if 0 < |s| && IsDigit(s[0]) && DigitValue(s[0]) >= rule.lo1
    then Some((DigitValue(s[0]), 1))
    else if rule.spaced && 1 < |s| && s[0] == ' ' && IsDigit(s[1]) && DigitValue(s[1]) >= 1
    then Some((DigitValue(s[1]), 2))
    else None
  }

  /** The compiled format matched against the start of `s`, followed by
      `strptime`'s check that no input is left over. In these four formats no
      directive is followed by one that can start with a digit, so committing
      to the first alternative of each field loses no match that backtracking
      would find. */
  function MatchFrom(fmt: seq<Directive>, s: string, acc: Instant): Option<Instant>
    decreases |fmt|
  {
    if fmt == [] then (if s == [] then Some(acc) else None)
    else
      match fmt[0]
      case Lit(c) =>
        if s != [] && s[0] == c then MatchFrom(fmt[1..], s[1..], acc) else None
      case Blank =>
        (match Token(s, Space, 1, |s|)
         case None => None
         case Some((_, rest)) => MatchFrom(fmt[1..], rest, acc))
      case Year =>
        (match Token(s, Digit, 4, 4)
         case None => None
         case Some((y, rest)) => MatchFrom(fmt[1..], rest, acc.(year := DecimalValue(y))))
      case Day | Month | Hour | Minute | Second =>
        match NumberField(s, RuleOf(fmt[0]))
        case None => None
        case Some((v, n)) => MatchFrom(fmt[1..], s[n..], Assign(acc, fmt[0], v))
  }

  /** `datetime.strptime(s, fmt)`, or nothing where it raises. */
  function Strptime(s: string, fmt: seq<Directive>): (r: Option<Instant>)
    ensures r.Some? ==> Valid(r.value)
  {
    var m := MatchFrom(fmt, s, StrptimeDefaults);
    if m.Some? && Valid(m.value) then m else None
  }

  /** The formats tried in order: the result is that of the first format
      that parses, and nothing only when none does. */
  function FirstFormat(s: string, fmts: seq<seq<Directive>>): (r: Option<Instant>)
    ensures r.Some? ==> Valid(r.value)
    ensures r.None? <==> forall k :: 0 <= k < |fmts| ==> Strptime(s, fmts[k]).None?
    ensures r.Some? ==> exists k :: 0 <= k < |fmts| && r == Strptime(s, fmts[k])
                          && forall j :: 0 <= j < k ==> Strptime(s, fmts[j]).None?
  {
    if fmts == [] then None
    else
      var r := Strptime(s, fmts[0]);
      if r.Some? then r
      else
        var rest := FirstFormat(s, fmts[1..]);
        assert forall k :: 0 < k < |fmts| ==> fmts[k] == fmts[1..][k - 1];
        rest
  }

  /** `parse_date(date_string)`. Whatever it returns is a real calendar
      instant: never a default date, never an impossible one. */
  function ParseDate(raw: string): (r: Option<Instant>)
    ensures r.Some? ==> Valid(r.value)
  {
    if raw == [] then None
    else
      var s := Strip(raw);
      var fromLong := LongFormDate(s);
      if fromLong.Some? then fromLong else FirstFormat(s, Formats)
  }

  /** The instant of the long form found in `s`, if there is one and it
      names a known month and a real date. */
  function LongFormDate(s: string): (r: Option<Instant>)
    ensures r.Some? ==> Valid(r.value)
  {
    var long := SearchLongForm(s);
    if long.Some? then FromLongForm(long.value) else None
  }

  // ------------------------------------------------------------ properties

  /** `t` can be written with a four-digit year and two-digit other fields. */
  predicate Writable(t: Instant) {
    && 0 <= t.year < 10000 && 0 <= t.month < 100 && 0 <= t.day < 100
    && 0 <= t.hour < 100 && 0 <= t.minute < 100 && 0 <= t.second < 100
  }

  /** `t` written zero-padded as `%d<sep>%m<sep>%Y %H:%M`. */
  function DayFirstText(sep: char, t: Instant): string
    requires Writable(t)
  {
    Pad(t.day, 2) + ([sep] + (Pad(t.month, 2) + ([sep] + (Pad(t.year, 4)
      + (" " + (Pad(t.hour, 2) + (":" + Pad(t.minute, 2))))))))
  }

  /** `t` written zero-padded as `%Y-%m-%d %H:%M:%S`. */
  function IsoText(t: Instant): string
    requires Writable(t)
  {
    Pad(t.year, 4) + ("-" + (Pad(t.month, 2) + ("-" + (Pad(t.day, 2)
      + (" " + (Pad(t.hour, 2) + (":" + (Pad(t.minute, 2) + (":" + Pad(t.second, 2))))))))))
  }

  /** A date in the long Polish form, `DD <name> YYYY, HH:MM`. */
  function LongText(day: nat, name: string, year: nat, hour: nat, minute: nat): string
    requires day < 100 && year < 10000 && hour < 100 && minute < 100
  {
    Pad(day, 2) + (" " + (name + (" " + (Pad(year, 4)
      + ("," + (" " + (Pad(hour, 2) + (":" + Pad(minute, 2)))))))))
  }

  /** What follows a one-or-two-digit field in the four formats: a separator
      that is not a digit, a blank, or the end. */
  predicate StopsDigit(fmt: seq<Directive>) {
    fmt == [] || (fmt[0].Lit? && !IsDigit(fmt[0].c)) || fmt[0].Blank?
  }

  /** `p` is two decimal digits worth `v`. */
  predicate TwoDigits(p: string, v: nat) {
    |p| == 2 && IsDigit(p[0]) && IsDigit(p[1]) && 10 * DigitValue(p[0]) + DigitValue(p[1]) == v
  }

  /** `p` is four decimal digits worth `v`. */
  predicate FourDigits(p: string, v: nat) {
    |p| == 4 && AllDigits(p) && DecimalValue(p) == v
  }

  lemma PadTwoDigits(v: nat)
    requires v < 100
    ensures TwoDigits(Pad(v, 2), v)
  {
    var p := Pad(v, 2);
    assert Pow10(2) == 100;
    assert p[..1][..0] == [];
    assert DecimalValue(p[..1]) == DigitValue(p[0]);
  }

  lemma PadValue(v: nat, w: nat)
    requires w == 2 || w == 4
    requires v < if w == 2 then 100 else 10000
    ensures DecimalValue(Pad(v, w)) == v
  {
    assert Pow10(2) == 100 && Pow10(4) == 10000;
  }

  lemma PadFourDigits(v: nat)
    requires v < 10000
    ensures FourDigits(Pad(v, 4), v)
  {
    PadValue(v, 4);
  }

  /** Input starting with a digit is rejected by whatever may follow a field. */
  lemma DigitStopsMatch(fmt: seq<Directive>, s: string, acc: Instant)
    requires StopsDigit(fmt) && s != [] && IsDigit(s[0])
    ensures MatchFrom(fmt, s, acc) == None
  {
    if fmt != [] && fmt[0].Blank? {
      assert Run(s, 0, Space) == 0;
    }
  }

  /** A field written as two digits is taken whole when its value lies in
      the field's range; otherwise the whole format fails. */
  lemma NumberStep(fmt: seq<Directive>, p: string, v: nat, rest: string, acc: Instant)
    requires fmt != [] && IsNumeric(fmt[0]) && TwoDigits(p, v) && StopsDigit(fmt[1..])
    ensures MatchFrom(fmt, p + rest, acc) ==
      if RuleOf(fmt[0]).lo2 <= v <= RuleOf(fmt[0]).hi2
      then MatchFrom(fmt[1..], rest, Assign(acc, fmt[0], v)) else None
  {
    var s := p + rest;
    assert s[0] == p[0] && s[1] == p[1];
    assert s[2..] == rest;
    if !(RuleOf(fmt[0]).lo2 <= v <= RuleOf(fmt[0]).hi2) && DigitValue(s[0]) >= RuleOf(fmt[0]).lo1 {
      DigitStopsMatch(fmt[1..], s[1..], Assign(acc, fmt[0], DigitValue(s[0])));
    }
  }

  lemma YearStep(fmt: seq<Directive>, p: string, y: nat, rest: string, acc: Instant)
    requires fmt != [] && fmt[0] == Year && FourDigits(p, y)
    requires rest == [] || !IsDigit(rest[0])
    ensures MatchFrom(fmt, p + rest, acc) == MatchFrom(fmt[1..], rest, acc.(year := y))
  {
    TokenExact(p, rest, Digit, 4, 4);
  }

  lemma LitStep(fmt: seq<Directive>, c: char, rest: string, acc: Instant)
    requires fmt != [] && fmt[0] == Lit(c)
    ensures MatchFrom(fmt, [c] + rest, acc) == MatchFrom(fmt[1..], rest, acc)
  {
    assert ([c] + rest)[1..] == rest;
  }

  lemma BlankStep(fmt: seq<Directive>, rest: string, acc: Instant)
    requires fmt != [] && fmt[0] == Blank
    requires rest == [] || !IsSpace(rest[0])
    ensures MatchFrom(fmt, " " + rest, acc) == MatchFrom(fmt[1..], rest, acc)
  {
    TokenExact(" ", rest, Space, 1, |" " + rest|);
  }

  /** `%H:%M` reads back its own text. */
  lemma ClockMatch(ph: string, h: nat, pm: string, m: nat, acc: Instant)
    requires TwoDigits(ph, h) && TwoDigits(pm, m)
    ensures MatchFrom([Hour, Lit(':'), Minute], ph + (":" + pm), acc) ==
      if h <= 23 && m <= 59 then Some(acc.(hour := h, minute := m)) else None
  {
    assert pm + [] == pm;
    NumberStep([Hour, Lit(':'), Minute], ph, h, ":" + pm, acc);
    assert [Hour, Lit(':'), Minute][1..] == [Lit(':'), Minute];
    LitStep([Lit(':'), Minute], ':', pm, acc.(hour := h));
    assert [Lit(':'), Minute][1..] == [Minute];
    NumberStep([Minute], pm, m, [], acc.(hour := h));
  }

  /** `%H:%M:%S` reads back its own text. */
  lemma ClockSecondsMatch(ph: string, h: nat, pm: string, m: nat, ps: string, sec: nat, acc: Instant)
    requires TwoDigits(ph, h) && TwoDigits(pm, m) && TwoDigits(ps, sec)
    ensures MatchFrom([Hour, Lit(':'), Minute, Lit(':'), Second], ph + (":" + (pm + (":" + ps))), acc) ==
      if h <= 23 && m <= 59 && sec <= 61 then Some(acc.(hour := h, minute := m, second := sec)) else None
  {
    var a := acc.(hour := h);
    var b := a.(minute := m);
    assert ps + [] == ps;
    NumberStep([Hour, Lit(':'), Minute, Lit(':'), Second], ph, h, ":" + (pm + (":" + ps)), acc);
    assert [Hour, Lit(':'), Minute, Lit(':'), Second][1..] == [Lit(':'), Minute, Lit(':'), Second];
    LitStep([Lit(':'), Minute, Lit(':'), Second], ':', pm + (":" + ps), a);
    assert [Lit(':'), Minute, Lit(':'), Second][1..] == [Minute, Lit(':'), Second];
    NumberStep([Minute, Lit(':'), Second], pm, m, ":" + ps, a);
    assert [Minute, Lit(':'), Second][1..] == [Lit(':'), Second];
    LitStep([Lit(':'), Second], ':', ps, b);
    assert [Lit(':'), Second][1..] == [Second];
    NumberStep([Second], ps, sec, [], b);
  }

  /** `%Y %H:%M` reads back its own text. */
  lemma YearClockMatch(py: string, y: nat, ph: string, h: nat, pm: string, m: nat, acc: Instant)
    requires FourDigits(py, y) && TwoDigits(ph, h) && TwoDigits(pm, m)
    ensures MatchFrom([Year, Blank, Hour, Lit(':'), Minute], py + (" " + (ph + (":" + pm))), acc) ==
      if h <= 23 && m <= 59 then Some(acc.(year := y, hour := h, minute := m)) else None
  {
    var clock := ph + (":" + pm);
    assert clock[0] == ph[0];
    YearStep([Year, Blank, Hour, Lit(':'), Minute], py, y, " " + clock, acc);
    assert [Year, Blank, Hour, Lit(':'), Minute][1..] == [Blank, Hour, Lit(':'), Minute];
    BlankStep([Blank, Hour, Lit(':'), Minute], clock, acc.(year := y));
    assert [Blank, Hour, Lit(':'), Minute][1..] == [Hour, Lit(':'), Minute];
    ClockMatch(ph, h, pm, m, acc.(year := y));
  }

  /** `<a><sep><b><sep>` with two two-digit fields, before any tail. */
  lemma PairMatch(first: Directive, second: Directive, sep: char, pa: string, a: nat, pb: string, b: nat,
                  tail: seq<Directive>, rest: string, acc: Instant)
    requires IsNumeric(first) && IsNumeric(second) && !IsDigit(sep) && TwoDigits(pa, a) && TwoDigits(pb, b)
    ensures MatchFrom([first, Lit(sep), second, Lit(sep)] + tail, pa + ([sep] + (pb + ([sep] + rest))), acc) ==
      if RuleOf(first).lo2 <= a <= RuleOf(first).hi2 && RuleOf(second).lo2 <= b <= RuleOf(second).hi2
      then MatchFrom(tail, rest, Assign(Assign(acc, first, a), second, b)) else None
  {
    var f := [first, Lit(sep), second, Lit(sep)] + tail;
    var a1 := Assign(acc, first, a);
    assert f[1..] == [Lit(sep), second, Lit(sep)] + tail;
    NumberStep(f, pa, a, [sep] + (pb + ([sep] + rest)), acc);
    LitStep(f[1..], sep, pb + ([sep] + rest), a1);
    assert f[1..][1..] == [second, Lit(sep)] + tail;
    assert f[1..][1..][1..] == [Lit(sep)] + tail;
    NumberStep(f[1..][1..], pb, b, [sep] + rest, a1);
    LitStep(f[1..][1..][1..], sep, rest, Assign(a1, second, b));
    assert f[1..][1..][1..][1..] == tail;
  }

  /** The day-first format reads back every field of its own text, and fails
      exactly when a field lies outside the range its directive accepts. */
  lemma DayFirstMatch(sep: char, t: Instant, acc: Instant)
    requires (sep == '.' || sep == '-' || sep == '/') && Writable(t)
    ensures MatchFrom(DayFirstFormat(sep), DayFirstText(sep, t), acc) ==
      if 1 <= t.day <= 31 && 1 <= t.month <= 12 && t.hour <= 23 && t.minute <= 59
      then Some(acc.(year := t.year, month := t.month, day := t.day, hour := t.hour, minute := t.minute))
      else None
  {
    var tail := [Year, Blank, Hour, Lit(':'), Minute];
    var rest := Pad(t.year, 4) + (" " + (Pad(t.hour, 2) + (":" + Pad(t.minute, 2))));
    assert DayFirstFormat(sep) == [Day, Lit(sep), Month, Lit(sep)] + tail;
    PadTwoDigits(t.day);
    PadTwoDigits(t.month);
    PadTwoDigits(t.hour);
    PadTwoDigits(t.minute);
    PadFourDigits(t.year);
    PairMatch(Day, Month, sep, Pad(t.day, 2), t.day, Pad(t.month, 2), t.month, tail, rest, acc);
    YearClockMatch(Pad(t.year, 4), t.year, Pad(t.hour, 2), t.hour, Pad(t.minute, 2), t.minute,
                   acc.(day := t.day, month := t.month));
  }

  /** The ISO format reads back every field of its own text, and fails
      exactly when a field lies outside the range its directive accepts. */
  lemma IsoMatch(t: Instant, acc: Instant)
    requires Writable(t)
    ensures MatchFrom(IsoFormat, IsoText(t), acc) ==
      if 1 <= t.month <= 12 && 1 <= t.day <= 31 && t.hour <= 23 && t.minute <= 59 && t.second <= 61
      then Some(Instant(t.year, t.month, t.day, t.hour, t.minute, t.second))
      else None
  {
    PadFourDigits(t.year);
    PadTwoDigits(t.month);
    PadTwoDigits(t.day);
    PadTwoDigits(t.hour);
    PadTwoDigits(t.minute);
    PadTwoDigits(t.second);
    IsoFieldsMatch(Pad(t.year, 4), t.year, Pad(t.month, 2), t.month, Pad(t.day, 2), t.day,
                   Pad(t.hour, 2), t.hour, Pad(t.minute, 2), t.minute, Pad(t.second, 2), t.second, acc);
  }

  lemma IsoFieldsMatch(py: string, y: nat, pm: string, m: nat, pd: string, d: nat,
                       ph: string, h: nat, pmi: string, mi: nat, ps: string, sec: nat, acc: Instant)
    requires FourDigits(py, y) && TwoDigits(pm, m) && TwoDigits(pd, d)
    requires TwoDigits(ph, h) && TwoDigits(pmi, mi) && TwoDigits(ps, sec)
    ensures MatchFrom(IsoFormat, py + ("-" + (pm + ("-" + (pd + (" " + (ph + (":" + (pmi + (":" + ps))))))))), acc) ==
      if 1 <= m <= 12 && 1 <= d <= 31 && h <= 23 && mi <= 59 && sec <= 61
      then Some(Instant(y, m, d, h, mi, sec))
      else None
  {
    var clock := ph + (":" + (pmi + (":" + ps)));
    var t1 := "-" + (pm + ("-" + (pd + (" " + clock))));
    var tail := [Day, Blank, Hour, Lit(':'), Minute, Lit(':'), Second];
    var a1 := acc.(year := y);
    YearStep(IsoFormat, py, y, t1, acc);
    assert IsoFormat[1..] == [Lit('-'), Month, Lit('-')] + tail;
    LitStep(IsoFormat[1..], '-', pm + ("-" + (pd + (" " + clock))), a1);
    IsoMonthDay(pm, m, pd, d, clock, a1);
    BlankClockSeconds(ph, h, pmi, mi, ps, sec, a1.(month := m, day := d));
  }

  lemma IsoMonthDay(pm: string, m: nat, pd: string, d: nat, clock: string, acc: Instant)
    requires TwoDigits(pm, m) && TwoDigits(pd, d)
    ensures MatchFrom([Month, Lit('-'), Day, Blank, Hour, Lit(':'), Minute, Lit(':'), Second],
                      pm + ("-" + (pd + (" " + clock))), acc) ==
      if 1 <= m <= 12 && 1 <= d <= 31
      then MatchFrom([Blank, Hour, Lit(':'), Minute, Lit(':'), Second], " " + clock, acc.(month := m, day := d))
      else None
  {
    var f := [Month, Lit('-'), Day, Blank, Hour, Lit(':'), Minute, Lit(':'), Second];
    NumberStep(f, pm, m, "-" + (pd + (" " + clock)), acc);
    assert f[1..] == [Lit('-'), Day, Blank, Hour, Lit(':'), Minute, Lit(':'), Second];
    LitStep(f[1..], '-', pd + (" " + clock), acc.(month := m));
    assert f[1..][1..] == [Day, Blank, Hour, Lit(':'), Minute, Lit(':'), Second];
    NumberStep(f[1..][1..], pd, d, " " + clock, acc.(month := m));
    assert f[1..][1..][1..] == [Blank, Hour, Lit(':'), Minute, Lit(':'), Second];
  }

  lemma BlankClockSeconds(ph: string, h: nat, pm: string, m: nat, ps: string, sec: nat, acc: Instant)
    requires TwoDigits(ph, h) && TwoDigits(pm, m) && TwoDigits(ps, sec)
    ensures MatchFrom([Blank, Hour, Lit(':'), Minute, Lit(':'), Second], " " + (ph + (":" + (pm + (":" + ps)))), acc) ==
      if h <= 23 && m <= 59 && sec <= 61 then Some(acc.(hour := h, minute := m, second := sec)) else None
  {
    var clock := ph + (":" + (pm + (":" + ps)));
    assert clock[0] == ph[0];
    BlankStep([Blank, Hour, Lit(':'), Minute, Lit(':'), Second], clock, acc);
    assert [Blank, Hour, Lit(':'), Minute, Lit(':'), Second][1..] == [Hour, Lit(':'), Minute, Lit(':'), Second];
    ClockSecondsMatch(ph, h, pm, m, ps, sec, acc);
  }

  /** A day-first format fails on text whose third character is not its
      separator, once the first two are digits. */
  lemma DayFirstRejects(sep: char, s: string, acc: Instant)
    requires !IsDigit(sep) && 2 < |s| && IsDigit(s[0]) && IsDigit(s[1]) && s[2] != sep
    ensures MatchFrom(DayFirstFormat(sep), s, acc) == None
  {
    assert DayFirstFormat(sep)[1..][0] == Lit(sep);
  }

  /** The ISO format fails on text whose third character is not a digit. */
  lemma IsoRejects(s: string, acc: Instant)
    requires 2 < |s| && !IsDigit(s[2])
    ensures MatchFrom(IsoFormat, s, acc) == None
  {
  }

  /** A long-form match needs two whitespace characters. */
  lemma LongFormNeedsTwoSpaces(s: string)
    ensures AtMostOneSpace(s) ==> MatchLongForm(s).None?
  {
    if MatchLongForm(s).Some? {
      var (day, r1) := Token(s, Digit, 1, 2).value;
      var (sp1, r2) := Token(r1, Space, 1, |r1|).value;
      var (name, r3) := Token(r2, Word, 1, |r2|).value;
      var (sp2, r4) := Token(r3, Space, 1, |r3|).value;
      var p, q := |day|, |day| + |sp1| + |name|;
      assert s[p] == sp1[0] && InClass(sp1[0], Space);
      assert s[q] == sp2[0] && InClass(sp2[0], Space);
    }
  }

  /** `re.search` finds no long form in text with at most one whitespace character. */
  lemma {:induction false} NoLongForm(s: string)
    requires AtMostOneSpace(s)
    ensures SearchLongForm(s) == None
    decreases |s|
  {
    LongFormNeedsTwoSpaces(s);
    if s != [] {
      assert forall p :: 0 <= p < |s| - 1 ==> s[1..][p] == s[p + 1];
      NoLongForm(s[1..]);
    }
  }

  /** An empty or all-whitespace string gives nothing. */
  lemma BlankAbsent(raw: string)
    requires forall i :: 0 <= i < |raw| ==> IsSpace(raw[i])
    ensures ParseDate(raw) == None
  {
    if raw != [] {
      var s := Strip(raw);
      assert s == [];
      assert SearchLongForm(s) == None;
      assert forall j :: 0 <= j < |Formats| ==> MatchFrom(Formats[j], s, StrptimeDefaults) == None;
    }
  }

  /** When only one of the four formats can parse `s`, the format loop
      returns what that one gives. */
  lemma OnlyFormat(s: string, k: nat)
    requires k < |Formats|
    requires forall j :: 0 <= j < |Formats| && j != k ==> Strptime(s, Formats[j]).None?
    ensures FirstFormat(s, Formats) == Strptime(s, Formats[k])
  {
  }

  /** The clock part `HH:MM` has no whitespace. */
  lemma ClockNoSpace(ph: string, pm: string)
    requires NoSpace(ph) && NoSpace(pm)
    ensures NoSpace(ph + (":" + pm))
  {
    NoSpaceJoin(":", pm);
    NoSpaceJoin(ph, ":" + pm);
  }

  /** `<d><sep><m><sep><y> <h>:<mi>` has one whitespace character when its
      fields have none. */
  lemma DayFirstShapeOneSpace(sep: char, pd: string, pm: string, py: string, ph: string, pmi: string)
    requires !IsSpace(sep) && NoSpace(pd) && NoSpace(pm) && NoSpace(py) && NoSpace(ph) && NoSpace(pmi)
    ensures AtMostOneSpace(pd + ([sep] + (pm + ([sep] + (py + (" " + (ph + (":" + pmi))))))))
  {
    var clock := ph + (":" + pmi);
    ClockNoSpace(ph, pmi);
    OneSpaceFront(' ', clock);
    OneSpaceJoin(py, " " + clock);
    OneSpaceJoin([sep], py + (" " + clock));
    OneSpaceJoin(pm, [sep] + (py + (" " + clock)));
    OneSpaceJoin([sep], pm + ([sep] + (py + (" " + clock))));
    OneSpaceJoin(pd, [sep] + (pm + ([sep] + (py + (" " + clock)))));
  }

  lemma DayFirstOneSpace(sep: char, t: Instant)
    requires (sep == '.' || sep == '-' || sep == '/') && Writable(t)
    ensures AtMostOneSpace(DayFirstText(sep, t))
  {
    DigitsNoSpace(Pad(t.day, 2));
    DigitsNoSpace(Pad(t.month, 2));
    DigitsNoSpace(Pad(t.year, 4));
    DigitsNoSpace(Pad(t.hour, 2));
    DigitsNoSpace(Pad(t.minute, 2));
    DayFirstShapeOneSpace(sep, Pad(t.day, 2), Pad(t.month, 2), Pad(t.year, 4), Pad(t.hour, 2), Pad(t.minute, 2));
  }

  /** `strptime` with the matching day-first format gives `t` exactly when
      `t` is a real instant. */
  lemma DayFirstStrptime(sep: char, t: Instant)
    requires (sep == '.' || sep == '-' || sep == '/') && Writable(t) && t.second == 0
    ensures Strptime(DayFirstText(sep, t), DayFirstFormat(sep)) == if Valid(t) then Some(t) else None
  {
    DayFirstMatch(sep, t, StrptimeDefaults);
  }

  /** Text without whitespace at its ends and with at most one whitespace
      character inside is parsed by the numeric formats alone. */
  lemma NumericOnly(s: string)
    requires s != [] && !IsSpace(s[0]) && !IsSpace(s[|s| - 1]) && AtMostOneSpace(s)
    ensures ParseDate(s) == FirstFormat(s, Formats)
  {
    StripUntouched(s);
    NoLongForm(s);
    assert LongFormDate(s) == None;
  }

  /** A date written `DD.MM.YYYY HH:MM`, `DD-MM-YYYY HH:MM` or `DD/MM/YYYY HH:MM`
      parses to exactly that instant when it is a real one, and to nothing
      otherwise (the 31st of February, the 25th hour, month 0). */
  lemma DayFirstParsed(sep: char, t: Instant)
    requires (sep == '.' || sep == '-' || sep == '/') && Writable(t) && t.second == 0
    ensures ParseDate(DayFirstText(sep, t)) == if Valid(t) then Some(t) else None
  {
    var s := DayFirstText(sep, t);
    DayFirstEnds(sep, t);
    DayFirstOneSpace(sep, t);
    NumericOnly(s);
    DayFirstOnlyFormat(sep, s);
    DayFirstStrptime(sep, t);
  }

  /** Day-first text starts with two digits and its separator, and ends
      with a digit. */
  lemma DayFirstEnds(sep: char, t: Instant)
    requires (sep == '.' || sep == '-' || sep == '/') && Writable(t)
    ensures var s := DayFirstText(sep, t);
      && 2 < |s| && IsDigit(s[0]) && IsDigit(s[1]) && s[2] == sep && IsDigit(s[|s| - 1])
  {
    var s := DayFirstText(sep, t);
    PadTwoDigits(t.day);
    PadTwoDigits(t.minute);
    assert s[0] == Pad(t.day, 2)[0] && s[1] == Pad(t.day, 2)[1] && s[2] == sep;
    assert s[|s| - 1] == Pad(t.minute, 2)[1];
  }

  /** Text starting with two digits and a day-first separator is read by
      that day-first format alone. */
  lemma DayFirstOnlyFormat(sep: char, s: string)
    requires sep == '.' || sep == '-' || sep == '/'
    requires 2 < |s| && IsDigit(s[0]) && IsDigit(s[1]) && s[2] == sep
    ensures FirstFormat(s, Formats) == Strptime(s, DayFirstFormat(sep))
  {
    IsoRejects(s, StrptimeDefaults);
    if sep != '.' { DayFirstRejects('.', s, StrptimeDefaults); }
    if sep != '-' { DayFirstRejects('-', s, StrptimeDefaults); }
    if sep != '/' { DayFirstRejects('/', s, StrptimeDefaults); }
    OnlyFormat(s, if sep == '.' then 0 else if sep == '-' then 1 else 3);
  }


  /** `<y>-<m>-<d> <h>:<mi>:<s>` has one whitespace character when its
      fields have none. */
  lemma IsoShapeOneSpace(py: string, pm: string, pd: string, ph: string, pmi: string, ps: string)
    requires NoSpace(py) && NoSpace(pm) && NoSpace(pd) && NoSpace(ph) && NoSpace(pmi) && NoSpace(ps)
    ensures AtMostOneSpace(py + ("-" + (pm + ("-" + (pd + (" " + (ph + (":" + (pmi + (":" + ps))))))))))
  {
    var clock := ph + (":" + (pmi + (":" + ps)));
    ClockNoSpace(pmi, ps);
    ClockNoSpace(ph, pmi + (":" + ps));
    OneSpaceFront(' ', clock);
    OneSpaceJoin(pd, " " + clock);
    OneSpaceJoin("-", pd + (" " + clock));
    OneSpaceJoin(pm, "-" + (pd + (" " + clock)));
    OneSpaceJoin("-", pm + ("-" + (pd + (" " + clock))));
    OneSpaceJoin(py, "-" + (pm + ("-" + (pd + (" " + clock)))));
  }

  lemma IsoOneSpace(t: Instant)
    requires Writable(t)
    ensures AtMostOneSpace(IsoText(t))
  {
    DigitsNoSpace(Pad(t.year, 4));
    DigitsNoSpace(Pad(t.month, 2));
    DigitsNoSpace(Pad(t.day, 2));
    DigitsNoSpace(Pad(t.hour, 2));
    DigitsNoSpace(Pad(t.minute, 2));
    DigitsNoSpace(Pad(t.second, 2));
    IsoShapeOneSpace(Pad(t.year, 4), Pad(t.month, 2), Pad(t.day, 2), Pad(t.hour, 2), Pad(t.minute, 2), Pad(t.second, 2));
  }

  /** `strptime` with the ISO format gives `t` exactly when `t` is a real
      instant; its `%S` also takes 60 and 61, which `datetime` then refuses. */
  lemma IsoStrptime(t: Instant)
    requires Writable(t)
    ensures Strptime(IsoText(t), IsoFormat) == if Valid(t) then Some(t) else None
  {
    IsoMatch(t, StrptimeDefaults);
  }

  /** A date written `YYYY-MM-DD HH:MM:SS` parses to exactly that instant
      when it is a real one, and to nothing otherwise. */
  lemma IsoParsed(t: Instant)
    requires Writable(t)
    ensures ParseDate(IsoText(t)) == if Valid(t) then Some(t) else None
  {
    var s := IsoText(t);
    IsoEnds(t);
    IsoOneSpace(t);
    NumericOnly(s);
    IsoOnlyFormat(s);
    IsoStrptime(t);
  }

  /** ISO text starts with three digits and ends with one. */
  lemma IsoEnds(t: Instant)
    requires Writable(t)
    ensures var s := IsoText(t);
      && 2 < |s| && IsDigit(s[0]) && IsDigit(s[1]) && IsDigit(s[2]) && IsDigit(s[|s| - 1])
  {
    var s := IsoText(t);
    PadTwoDigits(t.second);
    assert s[0] == Pad(t.year, 4)[0] && s[1] == Pad(t.year, 4)[1] && s[2] == Pad(t.year, 4)[2];
    assert s[|s| - 1] == Pad(t.second, 2)[1];
  }

  /** Text starting with three digits is read by the ISO format alone. */
  lemma IsoOnlyFormat(s: string)
    requires 2 < |s| && IsDigit(s[0]) && IsDigit(s[1]) && IsDigit(s[2])
    ensures FirstFormat(s, Formats) == Strptime(s, IsoFormat)
  {
    DayFirstRejects('.', s, StrptimeDefaults);
    DayFirstRejects('-', s, StrptimeDefaults);
    DayFirstRejects('/', s, StrptimeDefaults);
    OnlyFormat(s, 2);
  }


  /** `,?\s+(\d{1,2}):(\d{2})` on `, HH:MM` takes the hour and the minute. */
  lemma LongTimeMatch(f: LongForm, hour: string, minute: string)
    requires AllDigits(hour) && |hour| == 2 && AllDigits(minute) && |minute| == 2
    ensures MatchTime(f, "," + (" " + (hour + (":" + minute)))) == Some(f.(hour := hour, minute := minute))
  {
    var t7 := ":" + minute;
    var t6 := hour + t7;
    var t5 := "," + (" " + t6);
    assert t5[1..] == " " + t6;
    assert t6[0] == hour[0];
    TokenExact(" ", t6, Space, 1, |t5[1..]|);
    TokenExact(hour, t7, Digit, 1, 2);
    assert t7[1..] == minute + [];
    TokenExact(minute, [], Digit, 2, 2);
  }

  /** `(\w+)\s+(\d{4})` on `<name> YYYY` leaves the rest to the time part. */
  lemma NameYearMatch(day: string, name: string, year: string, rest: string)
    requires name != [] && AllIn(name, Word) && AllDigits(year) && |year| == 4
    requires rest == [] || !IsDigit(rest[0])
    ensures MatchNameYear(day, name + (" " + (year + rest))) == MatchTime(LongForm(day, name, year, "", ""), rest)
  {
    var t4 := year + rest;
    var t3 := " " + t4;
    WordCharNotSpace(' ');
    TokenExact(name, t3, Word, 1, |name + t3|);
    assert t4[0] == year[0];
    TokenExact(" ", t4, Space, 1, |t3|);
    TokenExact(year, rest, Digit, 4, 4);
  }

  /** The long-form pattern on its own text yields its five groups. */
  lemma LongFormMatch(d: nat, name: string, y: nat, h: nat, mi: nat)
    requires d < 100 && y < 10000 && h < 100 && mi < 100
    requires name != [] && AllIn(name, Word)
    ensures MatchLongForm(LongText(d, name, y, h, mi)) == Some(LongForm(Pad(d, 2), name, Pad(y, 4), Pad(h, 2), Pad(mi, 2)))
  {
    var t5 := "," + (" " + (Pad(h, 2) + (":" + Pad(mi, 2))));
    var t2 := name + (" " + (Pad(y, 4) + t5));
    assert LongText(d, name, y, h, mi) == Pad(d, 2) + (" " + t2);
    assert t2[0] == name[0];
    DayBlankMatch(Pad(d, 2), t2);
    NameYearMatch(Pad(d, 2), name, Pad(y, 4), t5);
    LongTimeMatch(LongForm(Pad(d, 2), name, Pad(y, 4), "", ""), Pad(h, 2), Pad(mi, 2));
  }

  /** `(\d{1,2})\s+` on the day and one blank before a word leaves the rest
      to the name and year. */
  lemma DayBlankMatch(day: string, rest: string)
    requires AllDigits(day) && 1 <= |day| <= 2 && rest != [] && IsWordChar(rest[0])
    ensures MatchLongForm(day + (" " + rest)) == MatchNameYear(day, rest)
  {
    var t1 := " " + rest;
    TokenExact(day, t1, Digit, 1, 2);
    WordCharNotSpace(rest[0]);
    TokenExact(" ", rest, Space, 1, |t1|);
  }


  /** None of the four formats parses text that starts with two digits and
      continues with whitespace (or anything that is neither a digit nor a
      separator of a format). */
  lemma NoNumericFormat(s: string)
    requires 2 < |s| && IsDigit(s[0]) && IsDigit(s[1]) && !IsDigit(s[2])
    requires s[2] != '.' && s[2] != '-' && s[2] != '/'
    ensures FirstFormat(s, Formats) == None
  {
    DayFirstRejects('.', s, StrptimeDefaults);
    DayFirstRejects('-', s, StrptimeDefaults);
    DayFirstRejects('/', s, StrptimeDefaults);
    IsoRejects(s, StrptimeDefaults);
    assert forall k :: 0 <= k < |Formats| ==> Strptime(s, Formats[k]).None?;
  }

  lemma LongTextEnds(d: nat, name: string, y: nat, h: nat, mi: nat)
    requires d < 100 && y < 10000 && h < 100 && mi < 100
    ensures var s := LongText(d, name, y, h, mi);
      2 < |s| && IsDigit(s[0]) && IsDigit(s[1]) && s[2] == ' ' && IsDigit(s[|s| - 1])
  {
    var s := LongText(d, name, y, h, mi);
    PadTwoDigits(d);
    PadTwoDigits(mi);
    assert s[0] == Pad(d, 2)[0] && s[1] == Pad(d, 2)[1] && s[2] == ' ';
    assert s[|s| - 1] == Pad(mi, 2)[1];
  }

  /** The instant built from the five groups of a long-form text. */
  lemma FromLongText(d: nat, name: string, y: nat, h: nat, mi: nat)
    requires d < 100 && y < 10000 && h < 100 && mi < 100 && name != []
    ensures FromLongForm(LongForm(Pad(d, 2), name, Pad(y, 4), Pad(h, 2), Pad(mi, 2))) ==
      var month := Lower(name);
      if month in PolishMonths && Valid(Instant(y, PolishMonths[month], d, h, mi, 0))
      then Some(Instant(y, PolishMonths[month], d, h, mi, 0)) else None
  {
    PadValue(d, 2);
    PadValue(y, 4);
    PadValue(h, 2);
    PadValue(mi, 2);
  }

  /** Long-form text is read by the long form alone. */
  lemma LongFormOnly(d: nat, name: string, y: nat, h: nat, mi: nat)
    requires d < 100 && y < 10000 && h < 100 && mi < 100
    requires name != [] && AllIn(name, Word)
    ensures ParseDate(LongText(d, name, y, h, mi)) == FromLongForm(LongForm(Pad(d, 2), name, Pad(y, 4), Pad(h, 2), Pad(mi, 2)))
  {
    var s := LongText(d, name, y, h, mi);
    LongTextEnds(d, name, y, h, mi);
    StripUntouched(s);
    LongFormMatch(d, name, y, h, mi);
    NoNumericFormat(s);
  }

  /** A date in the long Polish form parses to its instant when the month
      name, lower-cased, is in the table and the date is a real one; to
      nothing otherwise, since no numeric format reads it either. */
  lemma LongFormParsed(d: nat, name: string, y: nat, h: nat, mi: nat)
    requires d < 100 && y < 10000 && h < 100 && mi < 100
    requires name != [] && AllIn(name, Word)
    ensures ParseDate(LongText(d, name, y, h, mi)) ==
      var month := Lower(name);
      if month in PolishMonths && Valid(Instant(y, PolishMonths[month], d, h, mi, 0))
      then Some(Instant(y, PolishMonths[month], d, h, mi, 0)) else None
  {
    LongFormOnly(d, name, y, h, mi);
    FromLongText(d, name, y, h, mi);
  }
}
