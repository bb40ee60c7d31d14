/** The small text formatters of helpers.py on integer inputs:
    `format_time`, `format_duration`, `truncate_text` and
    `create_progress_bar`. The two time formatters come with readers that
    take their text back to the fields and the seconds it shows; the text
    truncation and the bar come with statements of their shape and
    counts. */
module Formatting {
  import opened PyStr

  // ---------------------------------------------------------------------------
  // format_time

  /** `format_time(seconds)` for an integer number of seconds: `Ns` under a
      minute, `Nm Ns` under an hour, and `Nh Nm` (seconds dropped) beyond.
      Read back, the text gives fields printed the canonical way, standing
      for the seconds shown: 0 for a negative input, all of them under an
      hour, whole minutes from an hour on. */
  function FormatTime(s: int): (r: string)
    ensures s < 3600 ==> EndsWith(r, "s")
    ensures s >= 3600 ==> EndsWith(r, "m")
    ensures CanonicalTime(ReadTime(r))
    ensures ParseTime(r) == ShownSeconds(s)
  {
    if s < 0 then
      ReadNatString(0, "s");
      assert NatToString(0) == "0";
      "0s"
    else if s < 60 then
      ReadNatString(s, "s");
      NatToString(s) + "s"
    else if s < 3600 then
      ReadMinutes(s / 60, s % 60);
      NatToString(s / 60) + "m " + NatToString(s % 60) + "s"
    else
      ReadHours(s / 3600, (s % 3600) / 60);
      SplitClock(s);
      NatToString(s / 3600) + "h " + NatToString((s % 3600) / 60) + "m"
  }

  /** The fields of a `format_time` text. */
  datatype TimeText =
    | Secs(secs: nat)
    | MinSecs(mins: nat, secs: nat)
    | HourMins(hours: nat, mins: nat)
    | BadTime

  /** Reads the fields of a `format_time` text: `Ns`, `Nm Ns` or `Nh Nm`,
      each number written the way `str` writes it. */
  function ReadTime(t: string): TimeText {
    var a := ReadNat(t);
    var rest := a.1;
    if !Decimal(LeadDigits(t)) then BadTime
    else if rest == "s" then Secs(a.0)
    else if |rest| >= 2 && rest[..2] == "m " then
      var b := ReadNat(rest[2..]);
      if Decimal(LeadDigits(rest[2..])) && b.1 == "s" then MinSecs(a.0, b.0) else BadTime
    else if |rest| >= 2 && rest[..2] == "h " then
      var b := ReadNat(rest[2..]);
      if Decimal(LeadDigits(rest[2..])) && b.1 == "m" then HourMins(a.0, b.0) else BadTime
    else BadTime
  }

  /** The text that shows the fields. */
  function ShowTime(f: TimeText): string {
    match f
    case Secs(x) => NatToString(x) + "s"
    case MinSecs(m, x) => NatToString(m) + "m " + NatToString(x) + "s"
    case HourMins(h, m) => NatToString(h) + "h " + NatToString(m) + "m"
    case BadTime => ""
  }

  /** The number of seconds the fields stand for, or -1 for a text of
      another shape. */
  function TimeValue(f: TimeText): int {
    match f
    case Secs(x) => x
    case MinSecs(m, x) => 60 * m + x
    case HourMins(h, m) => 3600 * h + 60 * m
    case BadTime => -1
  }

  /** The seconds a `format_time` text stands for. */
  function ParseTime(t: string): int {
    TimeValue(ReadTime(t))
  }

  /** The fields as `format_time` prints them: each field below the leading
      one is under 60, and a leading minute or hour field is not zero. */
  predicate CanonicalTime(f: TimeText) {
    match f
    case Secs(x) => x < 60
    case MinSecs(m, x) => 1 <= m < 60 && x < 60
    case HourMins(h, m) => 1 <= h && m < 60
    case BadTime => false
  }

  /** The seconds `format_time` shows: none for a negative input, all of them
      under an hour, and whole minutes from an hour on. */
  function ShownSeconds(s: int): nat {
    if s < 0 then 0 else if s < 3600 then s else s - s % 60
  }

  /** `str(m)` followed by `rest` reads as `m` and leaves `rest`. */
  lemma ReadLeading(m: nat, sep: string, x: nat, unit: string)
    requires |sep| == 2 && sep[0] !in Digits
    ensures ReadNat(NatToString(m) + sep + NatToString(x) + unit) == (m, sep + NatToString(x) + unit)
    ensures LeadDigits(NatToString(m) + sep + NatToString(x) + unit) == NatToString(m)
  {
    var rest := sep + NatToString(x) + unit;
    assert rest[0] == sep[0];
    Assoc4(NatToString(m), sep, NatToString(x), unit);
    ReadNatString(m, rest);
  }

  lemma ReadTrailing(sep: string, x: nat, unit: string)
    requires |sep| == 2 && |unit| == 1 && unit[0] !in Digits
    ensures var rest := sep + NatToString(x) + unit;
      && ReadNat(rest[2..]) == (x, unit)
      && LeadDigits(rest[2..]) == NatToString(x)
      && rest[..2] == sep
      && |rest| > 2
  {
    Assoc3(sep, NatToString(x), unit);
    Halves(sep, NatToString(x) + unit);
    ReadNatString(x, unit);
  }

  lemma Assoc3(a: string, b: string, c: string)
    ensures a + b + c == a + (b + c)
  {
  }

  lemma Assoc4(a: string, b: string, c: string, d: string)
    ensures a + b + c + d == a + (b + c + d)
  {
  }

  lemma Halves(p: string, q: string)
    ensures (p + q)[..|p|] == p && (p + q)[|p|..] == q
  {
  }

  lemma RightUnit(s: string)
    ensures s + [] == s
  {
  }

  /** `ReadTime` on a text whose leading number is followed by `m ` and a
      second number ending in `s`. */
  lemma ReadTimeMinutes(t: string, m: nat, rest: string, x: nat)
    requires ReadNat(t) == (m, rest) && Decimal(LeadDigits(t))
    requires |rest| > 2 && rest[..2] == "m " && ReadNat(rest[2..]) == (x, "s") && Decimal(LeadDigits(rest[2..]))
    ensures ReadTime(t) == MinSecs(m, x)
  {
  }

  /** `ReadTime` on a text whose leading number is followed by `h ` and a
      second number ending in `m`. */
  lemma ReadTimeHours(t: string, h: nat, rest: string, m: nat)
    requires ReadNat(t) == (h, rest) && Decimal(LeadDigits(t))
    requires |rest| > 2 && rest[..2] == "h " && ReadNat(rest[2..]) == (m, "m") && Decimal(LeadDigits(rest[2..]))
    ensures ReadTime(t) == HourMins(h, m)
  {
  }

  lemma ReadMinutes(m: nat, x: nat)
    ensures ReadTime(NatToString(m) + "m " + NatToString(x) + "s") == MinSecs(m, x)
  {
    ReadLeading(m, "m ", x, "s");
    ReadTrailing("m ", x, "s");
    ReadTimeMinutes(NatToString(m) + "m " + NatToString(x) + "s", m, "m " + NatToString(x) + "s", x);
  }

  lemma ReadHours(h: nat, m: nat)
    ensures ReadTime(NatToString(h) + "h " + NatToString(m) + "m") == HourMins(h, m)
  {
    ReadLeading(h, "h ", m, "m");
    ReadTrailing("h ", m, "m");
    ReadTimeHours(NatToString(h) + "h " + NatToString(m) + "m", h, "h " + NatToString(m) + "m", m);
  }

  /** A number below 60 added to a multiple of 60 splits back into both. */
  lemma DivOfMultiplePlus(k: int, x: int)
    requires 0 <= x < 60
    ensures (60 * k + x) / 60 == k && (60 * k + x) % 60 == x
  {
  }

  /** Hours, minutes and seconds add back up to the total. */
  lemma SplitClock(s: nat)
    ensures 3600 * (s / 3600) + 60 * ((s % 3600) / 60) + s % 60 == s
  {
    var h := s / 3600;
    var r := s % 3600;
    var m := r / 60;
    var x := r % 60;
    assert s == 3600 * h + r;
    assert r == 60 * m + x;
    assert s == 60 * (60 * h + m) + x;
    DivOfMultiplePlus(60 * h + m, x);
  }

  /** Canonical fields are fixed by the seconds they stand for, so no other
      canonical text reads as the same time. */
  lemma CanonicalTimeUnique(f: TimeText, g: TimeText)
    requires CanonicalTime(f) && CanonicalTime(g) && TimeValue(f) == TimeValue(g)
    ensures f == g
  {
    match f
    case Secs(_) =>
    case MinSecs(m, x) =>
      if g.MinSecs? {
        DivOfMultiplePlus(m, x);
        DivOfMultiplePlus(g.mins, g.secs);
      }
    case HourMins(h, m) =>
      if g.HourMins? {
        DivOfMultiplePlus(60 * h + m, 0);
        DivOfMultiplePlus(60 * g.hours + g.mins, 0);
        DivOfMultiplePlus(h, m);
        DivOfMultiplePlus(g.hours, g.mins);
      }
  }

  /** A digit run read from the front of `t` that is written as `str`
      writes its value is that text, and the rest follows it. */
  lemma ReadDecimal(t: string)
    requires Decimal(LeadDigits(t))
    ensures t == NatToString(ReadNat(t).0) + ReadNat(t).1
  {
    ReadNatSplit(t);
    DecimalIsString(LeadDigits(t));
  }

  lemma Glue(t: string, p: string, rest: string, sep: string, q: string)
    requires t == p + rest && |rest| >= |sep| && rest[..|sep|] == sep && rest[|sep|..] == q
    ensures t == p + sep + q
  {
    assert rest == sep + q;
  }

  /** `ReadTime` accepts only the text that shows the fields it reads. */
  lemma ReadTimeShows(t: string)
    requires ReadTime(t) != BadTime
    ensures ShowTime(ReadTime(t)) == t
  {
    var a := ReadNat(t);
    var rest := a.1;
    ReadDecimal(t);
    if rest != "s" {
      var u := rest[2..];
      ReadDecimal(u);
      Glue(t, NatToString(a.0), rest, rest[..2], u);
      Assoc3(NatToString(a.0) + rest[..2], NatToString(ReadNat(u).0), ReadNat(u).1);
    }
  }

  /** `format_time`'s text is the only text whose fields are canonical and
      stand for the seconds it shows. */
  lemma FormatTimeUnique(s: int, t: string)
    requires CanonicalTime(ReadTime(t)) && ParseTime(t) == ShownSeconds(s)
    ensures t == FormatTime(s)
  {
    CanonicalTimeUnique(ReadTime(t), ReadTime(FormatTime(s)));
    ReadTimeShows(t);
    ReadTimeShows(FormatTime(s));
  }

  // ---------------------------------------------------------------------------
  // format_duration

  /** `f"{n:02d}"` */
  function Pad2(n: nat): (r: string)
    ensures |r| >= 2 && (n < 100 ==> |r| == 2)
    ensures forall i :: 0 <= i < |r| ==> r[i] in Digits
    ensures Padded(r)
    ensures DigitsValue(r) == n
  {
    NatToStringRoundTrip(n);
    if n < 10 then
      LeadingZero(NatToString(n));
      "0" + NatToString(n)
    else
      assert n < 100 ==> NatToString(n) == NatToString(n / 10) + [DigitChar(n % 10)];
      NatToString(n)
  }

  /** A field as `f"{n:02d}"` writes it: at least two digits, with a
      leading zero only in a field of exactly two. */
  predicate Padded(d: string) {
    |d| >= 2 && (forall i :: 0 <= i < |d| ==> d[i] in Digits) && (|d| > 2 ==> d[0] != '0')
  }

  /** `NatToString` of a number below 10 is one character, of one from 10
      on at least two. */
  lemma ShortString(n: nat)
    ensures n < 10 <==> |NatToString(n)| == 1
  {
  }

  /** Every padded field is what `Pad2` writes for its value. */
  lemma PaddedIsPad2(d: string)
    requires Padded(d)
    ensures d == Pad2(DigitsValue(d))
  {
    var v := DigitsValue(d);
    if d[0] == '0' {
      var e := d[1..];
      assert d == "0" + e;
      LeadingZero(e);
      DecimalIsString(e);
      ShortString(DigitsValue(e));
    } else {
      DecimalIsString(d);
      ShortString(v);
    }
  }

  /** `format_duration(seconds)`: `00:00` for no or negative seconds, `MM:SS`
      under an hour and `HH:MM:SS` from an hour on. Read back, the text
      gives fields printed the canonical way, standing for the seconds, or
      0 for a non-positive input. */
  function FormatDuration(s: int): (r: string)
    ensures s < 3600 ==> |r| == 5
    ensures s >= 3600 ==> |r| >= 8
    ensures CanonicalClock(ReadClock(r))
    ensures ParseDuration(r) == (if s <= 0 then 0 else s)
  {
    if s <= 0 then
      ZeroClock();
      "00:00"
    else if s / 3600 > 0 then
      ClockFields(s);
      ShowsThree(s / 3600, (s % 3600) / 60, s % 60);
      Pad2(s / 3600) + ":" + Pad2((s % 3600) / 60) + ":" + Pad2(s % 60)
    else
      ClockFields(s);
      ShowsTwo((s % 3600) / 60, s % 60);
      Pad2((s % 3600) / 60) + ":" + Pad2(s % 60)
  }

  /** `00:00` reads as no time at all. */
  lemma ZeroClock()
    ensures CanonicalClock(ReadClock("00:00")) && ParseDuration("00:00") == 0
  {
    assert Pad2(0) == "00" by {
      assert NatToString(0) == "0";
    }
    assert "00:00" == Pad2(0) + ":" + Pad2(0);
    ReadClock2(0, 0);
  }

  /** The hour, minute and second fields of a positive number of seconds. */
  lemma ClockFields(s: int)
    requires s > 0
    ensures (s % 3600) / 60 < 60 && s % 60 < 60
    ensures 3600 * (s / 3600) + 60 * ((s % 3600) / 60) + s % 60 == s
    ensures s / 3600 > 0 <==> s >= 3600
  {
    SplitClock(s);
  }

  lemma ShowsTwo(m: nat, x: nat)
    requires m < 60 && x < 60
    ensures var t := Pad2(m) + ":" + Pad2(x);
      CanonicalClock(ReadClock(t)) && ParseDuration(t) == 60 * m + x
  {
    ReadClock2(m, x);
  }

  lemma ShowsThree(h: nat, m: nat, x: nat)
    requires h >= 1 && m < 60 && x < 60
    ensures var t := Pad2(h) + ":" + Pad2(m) + ":" + Pad2(x);
      CanonicalClock(ReadClock(t)) && ParseDuration(t) == 3600 * h + 60 * m + x
  {
    ReadClock3(h, m, x);
  }

  /** The fields of a `format_duration` text. */
  datatype ClockText =
    | Clock2(mins: nat, secs: nat)
    | Clock3(hours: nat, mins: nat, secs: nat)
    | BadClock

  /** Reads the fields of an `MM:SS` or `HH:MM:SS` text, each field
      written the way `f"{n:02d}"` writes it. */
  function ReadClock(t: string): ClockText {
    var a := ReadNat(t);
    if !Padded(LeadDigits(t)) || a.1 == [] || a.1[0] != ':' then BadClock
    else
      var b := ReadNat(a.1[1..]);
      if !Padded(LeadDigits(a.1[1..])) then BadClock
      else if b.1 == [] then Clock2(a.0, b.0)
      else if b.1[0] != ':' then BadClock
      else
        var c := ReadNat(b.1[1..]);
        if Padded(LeadDigits(b.1[1..])) && c.1 == [] then Clock3(a.0, b.0, c.0) else BadClock
  }

  /** The text that shows the fields. */
  function ShowClock(c: ClockText): string {
    match c
    case Clock2(m, x) => Pad2(m) + ":" + Pad2(x)
    case Clock3(h, m, x) => Pad2(h) + ":" + Pad2(m) + ":" + Pad2(x)
    case BadClock => ""
  }

  /** The seconds the fields stand for, or -1. */
  function ClockValue(c: ClockText): int {
    match c
    case Clock2(m, x) => 60 * m + x
    case Clock3(h, m, x) => 3600 * h + 60 * m + x
    case BadClock => -1
  }

  /** The seconds a `format_duration` text stands for. */
  function ParseDuration(t: string): int {
    ClockValue(ReadClock(t))
  }

  /** The fields as `format_duration` prints them: minutes and seconds under
      60, and an hour field only when it is not zero. */
  predicate CanonicalClock(c: ClockText) {
    match c
    case Clock2(m, x) => m < 60 && x < 60
    case Clock3(h, m, x) => 1 <= h && m < 60 && x < 60
    case BadClock => false
  }

  lemma ReadPadded(n: nat, rest: string)
    requires rest == [] || rest[0] !in Digits
    ensures ReadNat(Pad2(n) + rest) == (n, rest)
  {
    ReadNatDigits(Pad2(n), rest);
  }

  /** `":" + u` reads as a separator followed by `u`. */
  lemma AfterColon(u: string)
    ensures |":" + u| > 0 && (":" + u)[0] == ':' && (":" + u)[1..] == u
  {
  }

  lemma ReadTwoFields(t: string, m: nat, rest: string, x: nat)
    requires ReadNat(t) == (m, rest) && Padded(LeadDigits(t))
    requires |rest| > 0 && rest[0] == ':' && ReadNat(rest[1..]) == (x, []) && Padded(LeadDigits(rest[1..]))
    ensures ReadClock(t) == Clock2(m, x)
  {
  }

  lemma ReadThreeFields(t: string, h: nat, rest: string, m: nat, tail: string, x: nat)
    requires ReadNat(t) == (h, rest) && Padded(LeadDigits(t))
    requires |rest| > 0 && rest[0] == ':' && ReadNat(rest[1..]) == (m, tail) && Padded(LeadDigits(rest[1..]))
    requires |tail| > 0 && tail[0] == ':' && ReadNat(tail[1..]) == (x, []) && Padded(LeadDigits(tail[1..]))
    ensures ReadClock(t) == Clock3(h, m, x)
  {
  }

  /** A colon, a run of digits and then `tail` reads, after the colon, as the
      digits' value followed by `tail`. */
  lemma ReadColonField(b: string, tail: string)
    requires forall i :: 0 <= i < |b| ==> b[i] in Digits
    requires tail == [] || tail[0] !in Digits
    ensures var u := ":" + b + tail;
      |u| > 0 && u[0] == ':' && ReadNat(u[1..]) == (DigitsValue(b), tail) && LeadDigits(u[1..]) == b
  {
    Assoc3(":", b, tail);
    Halves(":", b + tail);
    ReadNatDigits(b, tail);
    LeadDigitsOf(b, tail);
  }

  /** Two runs of digits around a colon read as minutes and seconds. */
  lemma ReadFields2(a: string, b: string)
    requires Padded(a) && Padded(b)
    ensures ReadClock(a + ":" + b) == Clock2(DigitsValue(a), DigitsValue(b))
  {
    var rest := ":" + b + [];
    RightUnit(":" + b);
    Assoc3(a, ":", b);
    ReadColonField(b, []);
    ReadNatDigits(a, rest);
    LeadDigitsOf(a, rest);
    ReadTwoFields(a + rest, DigitsValue(a), rest, DigitsValue(b));
  }

  /** `:b:c` reads, field by field, as the values of `b` and `c`. */
  lemma ReadColonFields(b: string, c: string)
    requires forall i :: 0 <= i < |b| ==> b[i] in Digits
    requires forall i :: 0 <= i < |c| ==> c[i] in Digits
    ensures var rest := ":" + b + ":" + c; var tail := ":" + c;
      && |rest| > 0 && rest[0] == ':' && ReadNat(rest[1..]) == (DigitsValue(b), tail) && LeadDigits(rest[1..]) == b
      && |tail| > 0 && tail[0] == ':' && ReadNat(tail[1..]) == (DigitsValue(c), []) && LeadDigits(tail[1..]) == c
  {
    ReadColonField(c, []);
    RightUnit(":" + c);
    ReadColonField(b, ":" + c);
    Assoc3(":" + b, ":", c);
  }

  /** Three runs of digits separated by colons read as hours, minutes and
      seconds. */
  lemma ReadFields3(a: string, b: string, c: string)
    requires Padded(a) && Padded(b) && Padded(c)
    ensures ReadClock(a + ":" + b + ":" + c) == Clock3(DigitsValue(a), DigitsValue(b), DigitsValue(c))
  {
    var rest := ":" + b + ":" + c;
    ReadColonFields(b, c);
    ReadNatDigits(a, rest);
    LeadDigitsOf(a, rest);
    ReadThreeFields(a + rest, DigitsValue(a), rest, DigitsValue(b), ":" + c, DigitsValue(c));
    ColonsAssociate(a, b, c);
  }

  lemma ColonsAssociate(a: string, b: string, c: string)
    ensures a + ":" + b + ":" + c == a + (":" + b + ":" + c)
  {
  }

  lemma ReadClock2(m: nat, x: nat)
    ensures ReadClock(Pad2(m) + ":" + Pad2(x)) == Clock2(m, x)
  {
    ReadFields2(Pad2(m), Pad2(x));
  }

  lemma ReadClock3(h: nat, m: nat, x: nat)
    ensures ReadClock(Pad2(h) + ":" + Pad2(m) + ":" + Pad2(x)) == Clock3(h, m, x)
  {
    ReadFields3(Pad2(h), Pad2(m), Pad2(x));
  }

  /** A padded digit run read from the front of `t` is what `Pad2` writes
      for its value, and the rest follows it. */
  lemma ReadPaddedField(t: string)
    requires Padded(LeadDigits(t))
    ensures t == Pad2(ReadNat(t).0) + ReadNat(t).1
  {
    ReadNatSplit(t);
    PaddedIsPad2(LeadDigits(t));
  }

  lemma Assemble2(t: string, p: string, rest: string, q: string)
    requires t == p + rest && |rest| > 0 && rest[0] == ':' && rest[1..] == q + []
    ensures t == p + ":" + q
  {
    assert rest == ":" + q;
  }

  lemma Assemble3(t: string, p: string, rest: string, q: string, tail: string, r: string)
    requires t == p + rest && |rest| > 0 && rest[0] == ':' && rest[1..] == q + tail
    requires |tail| > 0 && tail[0] == ':' && tail[1..] == r + []
    ensures t == p + ":" + q + ":" + r
  {
    assert tail == ":" + r;
    assert rest == ":" + q + ":" + r;
  }

  /** `ReadClock` accepts only the text that shows the fields it reads. */
  lemma ReadClockShows(t: string)
    requires ReadClock(t) != BadClock
    ensures ShowClock(ReadClock(t)) == t
  {
    var a := ReadNat(t);
    ReadPaddedField(t);
    var u := a.1[1..];
    var b := ReadNat(u);
    ReadPaddedField(u);
    if b.1 == [] {
      Assemble2(t, Pad2(a.0), a.1, Pad2(b.0));
    } else {
      var w := b.1[1..];
      var c := ReadNat(w);
      ReadPaddedField(w);
      Assemble3(t, Pad2(a.0), a.1, Pad2(b.0), b.1, Pad2(c.0));
    }
  }

  /** `format_duration`'s text is the only text whose fields are canonical
      and stand for the seconds it shows. */
  lemma FormatDurationUnique(s: int, t: string)
    requires CanonicalClock(ReadClock(t)) && ParseDuration(t) == (if s <= 0 then 0 else s)
    ensures t == FormatDuration(s)
  {
    CanonicalClockUnique(ReadClock(t), ReadClock(FormatDuration(s)));
    ReadClockShows(t);
    ReadClockShows(FormatDuration(s));
  }

  /** Canonical fields are fixed by the seconds they stand for. */
  lemma CanonicalClockUnique(c: ClockText, d: ClockText)
    requires CanonicalClock(c) && CanonicalClock(d) && ClockValue(c) == ClockValue(d)
    ensures c == d
  {
    match c
    case Clock2(m, x) =>
      if d.Clock2? {
        DivOfMultiplePlus(m, x);
        DivOfMultiplePlus(d.mins, d.secs);
      }
    case Clock3(h, m, x) =>
      if d.Clock3? {
        DivOfMultiplePlus(60 * h + m, x);
        DivOfMultiplePlus(60 * d.hours + d.mins, d.secs);
        DivOfMultiplePlus(h, m);
        DivOfMultiplePlus(d.hours, d.mins);
      }
  }

  // ---------------------------------------------------------------------------
  // truncate_text

  /** `truncate_text(text, max_length)`. */
  function TruncateText(text: string, maxLength: int): (r: string)
    ensures text == [] ==> r == []
    ensures |text| <= maxLength ==> r == text
    ensures text != [] && |text| > maxLength ==>
      |r| >= 3 && EndsWith(r, "...") && StartsWith(text, r[..|r| - 3])
    ensures text != [] && |text| > maxLength >= 3 ==> |r| == maxLength
    ensures text != [] && |text| > maxLength && maxLength < 3 ==>
      |r| == 3 + (if |text| + maxLength - 3 > 0 then |text| + maxLength - 3 else 0)
  {
    if text == [] then ""
    else if |text| <= maxLength then text
    else
      var head := SliceTo(text, maxLength - 3);
      assert (head + "...")[..|head|] == head;
      head + "..."
  }

  /** Below a budget of three the ellipsis alone overshoots it: the negative
      slice keeps all but the last characters and the result is longer than
      the budget. */
  lemma TruncateTextSmallBudget()
    ensures TruncateText("abcdef", 2) == "abcde..."
  {
    assert SliceTo("abcdef", -1) == "abcde";
  }

  /** With a budget of at least three, truncating again changes nothing:
      the first result already fits. */
  lemma TruncateTextIdempotent(text: string, maxLength: int)
    ensures maxLength >= 3 ==> TruncateText(TruncateText(text, maxLength), maxLength) == TruncateText(text, maxLength)
  {
  }

  // ---------------------------------------------------------------------------
  // create_progress_bar

  const Full: char := '\U{2588}'
  const Partial: char := '\U{2592}'
  const Blank: char := '\U{2591}'

  /** The percentage clamped to [0, 100]. */
  function Clamp(p: int): int {
    if p < 0 then 0 else if p > 100 then 100 else p
  }

  /** `int(x / y)` truncates toward zero. */
  function TruncDiv(x: int, y: int): int
    requires y > 0
  {
    if x >= 0 then x / y else -((-x) / y)
  }

  /** `int((percentage / 100) * length)` on integer percentages. */
  function Filled(p: int, length: int): int {
    TruncDiv(Clamp(p) * length, 100)
  }

  /** The bar for a given filled count. */
  function Bar(filled: int, length: int): (r: string)
    ensures 0 <= length && filled <= length ==> |r| == length
    ensures forall i :: 0 <= i < |r| ==>
      r[i] == (if i < filled then Full else if filled > 0 then Partial else Blank)
  {
    if filled == length then Repeat(Full, length)
    else if filled > 0 then Repeat(Full, filled) + Repeat(Partial, length - filled)
    else Repeat(Blank, length)
  }

  /** `create_progress_bar(percentage, length)`: full blocks for the filled
      part, then medium shade, or light shade throughout when nothing is
      filled. */
  function CreateProgressBar(p: int, length: int): (r: string)
    ensures length >= 0 ==> |r| == length
    ensures forall i :: 0 <= i < |r| ==>
      r[i] == (if i < Filled(p, length) then Full else if Filled(p, length) > 0 then Partial else Blank)
  {
    FilledWithin(p, length);
    Bar(Filled(p, length), length)
  }

  lemma FilledWithin(p: int, length: int)
    ensures length >= 0 ==> 0 <= Filled(p, length) <= length
  {
    if length >= 0 {
      FilledBounds(p, p, length);
    }
  }

  /** The filled count lies between 0 and the length, and grows with the
      percentage. */
  lemma FilledBounds(p: int, q: int, length: nat)
    ensures 0 <= Filled(p, length) <= length
    ensures p <= q ==> Filled(p, length) <= Filled(q, length)
    ensures p >= 100 ==> Filled(p, length) == length
    ensures p <= 0 ==> Filled(p, length) == 0
  {
    if p <= q {
      assert Clamp(p) * length <= Clamp(q) * length;
    }
  }

  /** How many times `c` appears in `s`. */
  function Count(s: string, c: char): nat {
    if s == [] then 0 else Count(s[..|s| - 1], c) + (if s[|s| - 1] == c then 1 else 0)
  }

  lemma {:induction false} CountRun(s: string, c: char, k: nat)
    requires k <= |s|
    requires forall i :: 0 <= i < |s| ==> (s[i] == c <==> i < k)
    ensures Count(s, c) == k
    decreases |s|
  {
    if s != [] {
      var t := s[..|s| - 1];
      if k == |s| {
        CountRun(t, c, k - 1);
      } else {
        CountRun(t, c, k);
      }
    }
  }

  /** The bar holds exactly `filled` full blocks, so a larger percentage
      never shows fewer. */
  lemma ProgressBarCount(p: int, length: nat)
    ensures Count(CreateProgressBar(p, length), Full) == Filled(p, length)
  {
    FilledBounds(p, p, length);
    CountRun(CreateProgressBar(p, length), Full, Filled(p, length));
  }
}
