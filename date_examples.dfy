/** `parse_date` on sample strings of the forum. The sample lemmas take the
    numbers as parameters so that the verifier reasons about the text
    symbolically instead of evaluating it character by character. */
module DateExamples {
  import opened Wrappers
  import opened Text
  import opened Instants
  import opened DateParse

  /** The two digits of a two-digit field. */
  lemma PadDigits(v: nat, a: char, b: char)
    requires v < 100 && a == DigitChar(v / 10) && b == DigitChar(v % 10)
    ensures Pad(v, 2) == [a, b]
  {
    assert Pad(v / 10, 1) == [a];
  }

  lemma AugustInTable(name: string)
    requires name == "sierpnia"
    ensures name != [] && AllIn(name, Word)
    ensures Lower(name) == name && name in PolishMonths && PolishMonths[name] == 8
  {
    LowerOfAsciiLower(name);
  }

  /** The sample text, cut where `LongText` joins its pieces. */
  lemma LongSampleText(s: string)
    requires s == "05 sierpnia 2024, 14:30"
    ensures s == "05" + (" " + ("sierpnia" + (" " + ("2024" + ("," + (" " + ("14" + (":" + "30"))))))))
  {
  }

  lemma LongSampleIs(s: string, name: string, d: nat, y: nat, h: nat, mi: nat)
    requires s == "05 sierpnia 2024, 14:30" && name == "sierpnia"
    requires d == 5 && y == 2024 && h == 14 && mi == 30
    ensures s == LongText(d, name, y, h, mi)
  {
    PadDigits(d, '0', '5');
    PadDigits(h, '1', '4');
    PadDigits(mi, '3', '0');
    YearPad(y);
    LongSampleText(s);
  }

  lemma LongFormSample(s: string, name: string, d: nat, y: nat, h: nat, mi: nat)
    requires s == "05 sierpnia 2024, 14:30" && name == "sierpnia"
    requires d == 5 && y == 2024 && h == 14 && mi == 30
    ensures ParseDate(s) == Some(Instant(y, 8, d, h, mi, 0))
  {
    LongSampleIs(s, name, d, y, h, mi);
    AugustInTable(name);
    assert Valid(Instant(y, 8, d, h, mi, 0));
    LongFormParsed(d, name, y, h, mi);
  }

  /** "05.08.2024 14:30", cut where `DayFirstText` joins its pieces. */
  lemma DayFirstSampleText(s: string)
    requires s == "05.08.2024 14:30"
    ensures s == "05" + (['.'] + ("08" + (['.'] + ("2024" + (" " + ("14" + (":" + "30")))))))
  {
  }

  lemma YearPad(y: nat)
    requires y == 2024
    ensures Pad(y, 4) == "2024"
  {
  }

  lemma DayFirstSampleIs(s: string, t: Instant)
    requires s == "05.08.2024 14:30" && t == Instant(2024, 8, 5, 14, 30, 0)
    ensures Writable(t) && s == DayFirstText('.', t)
  {
    PadDigits(t.day, '0', '5');
    PadDigits(t.month, '0', '8');
    PadDigits(t.hour, '1', '4');
    PadDigits(t.minute, '3', '0');
    YearPad(t.year);
    DayFirstSampleText(s);
  }

  lemma DayFirstSample(s: string, t: Instant)
    requires s == "05.08.2024 14:30" && t == Instant(2024, 8, 5, 14, 30, 0)
    ensures ParseDate(s) == Some(t)
  {
    DayFirstSampleIs(s, t);
    DayFirstParsed('.', t);
  }

  /** "31.02.2024 10:00", cut where `DayFirstText` joins its pieces. */
  lemma FebruaryText(s: string)
    requires s == "31.02.2024 10:00"
    ensures s == "31" + (['.'] + ("02" + (['.'] + ("2024" + (" " + ("10" + (":" + "00")))))))
  {
  }

  lemma FebruaryIs(s: string, t: Instant)
    requires s == "31.02.2024 10:00" && t == Instant(2024, 2, 31, 10, 0, 0)
    ensures Writable(t) && s == DayFirstText('.', t)
  {
    PadDigits(t.day, '3', '1');
    PadDigits(t.month, '0', '2');
    PadDigits(t.hour, '1', '0');
    PadDigits(t.minute, '0', '0');
    YearPad(t.year);
    FebruaryText(s);
  }

  /** A well-formed date that does not exist is absent, not an error. */
  lemma FebruarySample(s: string, t: Instant)
    requires s == "31.02.2024 10:00" && t == Instant(2024, 2, 31, 10, 0, 0)
    ensures ParseDate(s) == None
  {
    FebruaryIs(s, t);
    DayFirstParsed('.', t);
  }

  /** "2024-08-05 14:30:00", cut where `IsoText` joins its pieces. */
  lemma IsoSampleText(s: string)
    requires s == "2024-08-05 14:30:00"
    ensures s == "2024" + ("-" + ("08" + ("-" + ("05" + (" " + ("14" + (":" + ("30" + (":" + "00")))))))))
  {
  }

  lemma IsoSampleIs(s: string, t: Instant)
    requires s == "2024-08-05 14:30:00" && t == Instant(2024, 8, 5, 14, 30, 0)
    ensures Writable(t) && s == IsoText(t)
  {
    PadDigits(t.day, '0', '5');
    PadDigits(t.month, '0', '8');
    PadDigits(t.hour, '1', '4');
    PadDigits(t.minute, '3', '0');
    PadDigits(t.second, '0', '0');
    YearPad(t.year);
    IsoSampleText(s);
  }

  lemma IsoSample(s: string, t: Instant)
    requires s == "2024-08-05 14:30:00" && t == Instant(2024, 8, 5, 14, 30, 0)
    ensures ParseDate(s) == Some(t)
  {
    IsoSampleIs(s, t);
    IsoParsed(t);
  }
}
