/** Second-precision RFC 3339 text, the form in which the result store keeps
    each record's event timestamp (Go's `time.RFC3339` layout,
    "2006-01-02T15:04:05Z07:00"). The store sorts on this text, so the order
    of the text is what the queries' "most recent first" actually means. */
module Rfc3339 {
  import opened Text
  import opened Wrappers

  /** A clock reading: civil date and time of day, sub-second part, and the
      zone's offset from UTC in minutes. */
  datatype DateTime = DateTime(
    year: int, month: int, day: int,
    hour: int, minute: int, second: int,
    nanos: int, offsetMinutes: int)

  /** The ranges a Go `time.Time` keeps its fields in, restricted to four-digit
      years and whole-minute offsets. */
  predicate InRange(t: DateTime) {
    && 0 <= t.year <= 9999
    && 1 <= t.month <= 12
    && 1 <= t.day <= 31
    && 0 <= t.hour <= 23
    && 0 <= t.minute <= 59
    && 0 <= t.second <= 59
    && 0 <= t.nanos < 1_000_000_000
    && -1439 <= t.offsetMinutes <= 1439
  }

  type Clock = t: DateTime | InRange(t) witness DateTime(1, 1, 1, 0, 0, 0, 0, 0)

  /** Go's zero `time.Time`: January 1 of year 1, midnight, UTC. */
  const ZeroTime: Clock := DateTime(1, 1, 1, 0, 0, 0, 0, 0)

  function Pow10(w: nat): (p: nat)
    ensures p >= 1
  {
    if w == 0 then 1 else 10 * Pow10(w - 1)
  }

  /** `n` written with exactly `w` digits, zero-padded on the left. */
  function Pad(n: nat, w: nat): (s: string)
    ensures |s| == w && AllDigits(s)
  {
    if w == 0 then [] else Pad(n / 10, w - 1) + [DigitChar(n % 10)]
  }

  /** The zone suffix: "Z" for UTC, otherwise a sign and hh:mm. */
  function Zone(offset: int): (s: string)
    requires -1439 <= offset <= 1439
  {
    if offset == 0 then "Z"
    else
      var m := if offset < 0 then -offset else offset;
      (if offset < 0 then "-" else "+") + (Pad(m / 60, 2) + (":" + Pad(m % 60, 2)))
  }

  /** The RFC 3339 layout: date, "T", time of day, zone. */
  function Assemble(y: string, mo: string, d: string, h: string, mi: string, sec: string, z: string): (s: string)
  {
    y + ("-" + (mo + ("-" + (d + ("T" + (h + (":" + (mi + (":" + (sec + z))))))))))
  }

  /** Go's `t.Format(time.RFC3339)`; the sub-second part is not written. */
  function Format(t: Clock): (s: string)
  {
    Assemble(Pad(t.year, 4), Pad(t.month, 2), Pad(t.day, 2),
             Pad(t.hour, 2), Pad(t.minute, 2), Pad(t.second, 2), Zone(t.offsetMinutes))
  }

  /** Value of the `w` digits of `s` starting at `i`, if they are all digits. */
  function NumberAt(s: string, i: nat, w: nat): (r: Option<nat>)
  {
    if i + w <= |s| && AllDigits(s[i..i + w]) then Some(DigitsValue(s[i..i + w])) else None
  }

  /** The zone suffix back as an offset in minutes. */
  function ParseZone(z: string): (r: Option<int>)
  {
    if z == "Z" then Some(0)
    else if |z| == 6 && (z[0] == '+' || z[0] == '-') && z[3] == ':' then
      match (NumberAt(z, 1, 2), NumberAt(z, 4, 2))
      case (Some(hh), Some(mm)) =>
        var magnitude: int := hh * 60 + mm;
        if hh <= 23 && mm <= 59 then Some(if z[0] == '-' then -magnitude else magnitude) else None
      case _ => None
    else None
  }

  /** Go's `time.Parse(time.RFC3339, s)` restricted to second precision: the
      fields at their fixed positions, each range-checked. */
  function Parse(s: string): (r: Option<Clock>)
    ensures r.Some? ==> r.value.nanos == 0
  {
    if |s| < 20 || s[4] != '-' || s[7] != '-' || s[10] != 'T' || s[13] != ':' || s[16] != ':' then None
    else
      match (NumberAt(s, 0, 4), NumberAt(s, 5, 2), NumberAt(s, 8, 2),
             NumberAt(s, 11, 2), NumberAt(s, 14, 2), NumberAt(s, 17, 2), ParseZone(s[19..]))
      case (Some(y), Some(mo), Some(d), Some(h), Some(mi), Some(sec), Some(off)) =>
        var t := DateTime(y, mo, d, h, mi, sec, 0, off);
        if InRange(t) then Some(t) else None
      case _ => None
  }

  /** Order of the civil fields, year first: chronological order for two
      readings in the same zone. */
  predicate CivilLess(a: Clock, b: Clock) {
    if a.year != b.year then a.year < b.year
    else if a.month != b.month then a.month < b.month
    else if a.day != b.day then a.day < b.day
    else if a.hour != b.hour then a.hour < b.hour
    else if a.minute != b.minute then a.minute < b.minute
    else a.second < b.second
  }

  /** Days from 1970-01-01 to the given proleptic Gregorian date. */
  function DaysFromCivil(y: int, m: int, d: int): int
  {
    var y' := if m <= 2 then y - 1 else y;
    var era := (if y' >= 0 then y' else y' - 399) / 400;
    var yoe := y' - era * 400;
    var doy := (153 * (if m > 2 then m - 3 else m + 9) + 2) / 5 + d - 1;
    var doe := yoe * 365 + yoe / 4 - yoe / 100 + doy;
    era * 146097 + doe - 719468
  }

  /** The instant a reading denotes, in whole seconds since the Unix epoch. */
  function UnixSeconds(t: Clock): int
  {
    DaysFromCivil(t.year, t.month, t.day) * 86400
    + t.hour * 3600 + t.minute * 60 + t.second - t.offsetMinutes * 60
  }

  // ---------------------------------------------------------------------------
  // Lemmas

  lemma {:induction false} PadValue(n: nat, w: nat)
    requires n < Pow10(w)
    ensures DigitsValue(Pad(n, w)) == n
  {
    if w > 0 {
      var s := Pad(n, w);
      assert n / 10 < Pow10(w - 1);
      PadValue(n / 10, w - 1);
      assert s[..|s| - 1] == Pad(n / 10, w - 1);
    }
  }

  lemma PadInjective(n: nat, m: nat, w: nat)
    requires n < Pow10(w) && m < Pow10(w)
    ensures Pad(n, w) == Pad(m, w) <==> n == m
  {
    PadValue(n, w);
    PadValue(m, w);
  }

  /** Zero-padded numerals of one width sort as their values do. */
  lemma {:induction false} PadOrder(n: nat, m: nat, w: nat)
    requires n < Pow10(w) && m < Pow10(w)
    ensures LexLess(Pad(n, w), Pad(m, w)) <==> n < m
  {
    if w == 0 {
    } else {
      assert n / 10 < Pow10(w - 1) && m / 10 < Pow10(w - 1);
      var a, b := Pad(n / 10, w - 1), Pad(m / 10, w - 1);
      var x, y := DigitChar(n % 10), DigitChar(m % 10);
      LexLessConcat(a, [x], b, [y]);
      PadOrder(n / 10, m / 10, w - 1);
      PadInjective(n / 10, m / 10, w - 1);
      assert LexLess([x], [y]) <==> x < y by {
        assert [x][1..] == [] && [y][1..] == [];
      }
      assert n == 10 * (n / 10) + n % 10 && m == 10 * (m / 10) + m % 10;
    }
  }

  lemma NumberAtPad(pre: string, n: nat, w: nat, post: string)
    requires n < Pow10(w)
    ensures NumberAt(pre + Pad(n, w) + post, |pre|, w) == Some(n)
  {
    var s := pre + Pad(n, w) + post;
    assert s[|pre|..|pre| + w] == Pad(n, w);
    PadValue(n, w);
  }

  lemma ParseZoneOfZone(offset: int)
    requires -1439 <= offset <= 1439
    ensures ParseZone(Zone(offset)) == Some(offset)
  {
    if offset != 0 {
      var m := if offset < 0 then -offset else offset;
      var sign := if offset < 0 then "-" else "+";
      var z := Zone(offset);
      assert Pow10(2) == 100;
      assert z == sign + Pad(m / 60, 2) + (":" + Pad(m % 60, 2));
      assert |z| == 6 && z[0] == sign[0] && z[3] == ':';
      NumberAtPad(sign, m / 60, 2, ":" + Pad(m % 60, 2));
      assert NumberAt(z, 1, 2) == Some(m / 60);
      assert z == sign + Pad(m / 60, 2) + ":" + Pad(m % 60, 2) + "";
      NumberAtPad(sign + Pad(m / 60, 2) + ":", m % 60, 2, "");
      assert NumberAt(z, 4, 2) == Some(m % 60);
      assert m / 60 <= 23;
      assert m == (m / 60) * 60 + m % 60;
    }
  }

  /** Where each part of the time-of-day text sits. */
  lemma TimeLayout(h: string, mi: string, sec: string, z: string)
    requires |h| == 2 && |mi| == 2 && |sec| == 2
    ensures var time := h + (":" + (mi + (":" + (sec + z))));
      && |time| == 8 + |z|
      && time[0..2] == h && time[2] == ':' && time[3..5] == mi && time[5] == ':'
      && time[6..8] == sec && time[8..] == z
  {
    var tail := sec + z;
    assert tail[0..2] == sec && tail[2..] == z;
    var mid := mi + (":" + tail);
    assert mid[0..2] == mi && mid[2] == ':' && mid[3..] == tail;
    var time := h + (":" + mid);
    assert time[0..2] == h && time[2] == ':' && time[3..] == mid;
    assert time[3..5] == mid[0..2];
    assert time[6..8] == mid[3..5] == tail[0..2];
    assert time[8..] == mid[5..] == tail[2..];
  }

  /** Where each part of the layout sits. */
  lemma Layout(y: string, mo: string, d: string, h: string, mi: string, sec: string, z: string)
    requires |y| == 4 && |mo| == 2 && |d| == 2 && |h| == 2 && |mi| == 2 && |sec| == 2
    ensures var s := Assemble(y, mo, d, h, mi, sec, z);
      && |s| == 19 + |z|
      && s[0..4] == y && s[4] == '-' && s[5..7] == mo && s[7] == '-' && s[8..10] == d && s[10] == 'T'
      && s[11..13] == h && s[13] == ':' && s[14..16] == mi && s[16] == ':' && s[17..19] == sec
      && s[19..] == z
  {
    var s := Assemble(y, mo, d, h, mi, sec, z);
    var time := h + (":" + (mi + (":" + (sec + z))));
    TimeLayout(h, mi, sec, z);
    var dayOn := d + ("T" + time);
    assert dayOn[0..2] == d && dayOn[2] == 'T' && dayOn[3..] == time;
    var monthOn := mo + ("-" + dayOn);
    assert monthOn[0..2] == mo && monthOn[2] == '-' && monthOn[3..] == dayOn;
    assert s == y + ("-" + monthOn);
    assert s[0..4] == y && s[4] == '-' && s[5..] == monthOn;
    assert s[5..7] == monthOn[0..2];
    assert s[8..] == dayOn;
    assert s[8..10] == dayOn[0..2];
    assert s[11..] == time;
    assert s[11..13] == time[0..2];
    assert s[14..16] == time[3..5];
    assert s[17..19] == time[6..8];
    assert s[19..] == time[8..];
  }

  /** A zero-padded field reads back as its value. */
  lemma PaddedField(s: string, i: nat, n: nat, w: nat)
    requires n < Pow10(w) && i + w <= |s| && s[i..i + w] == Pad(n, w)
    ensures NumberAt(s, i, w) == Some(n)
  {
    PadValue(n, w);
  }

  /** Reading back what Format wrote gives the same reading, less its
      sub-second part. */
  lemma ParseFormat(t: Clock)
    ensures Parse(Format(t)) == Some(t.(nanos := 0))
  {
    var s := Format(t);
    Layout(Pad(t.year, 4), Pad(t.month, 2), Pad(t.day, 2),
           Pad(t.hour, 2), Pad(t.minute, 2), Pad(t.second, 2), Zone(t.offsetMinutes));
    assert Pow10(2) == 100 && Pow10(4) == 10000;
    PaddedField(s, 0, t.year, 4);
    PaddedField(s, 5, t.month, 2);
    PaddedField(s, 8, t.day, 2);
    PaddedField(s, 11, t.hour, 2);
    PaddedField(s, 14, t.minute, 2);
    PaddedField(s, 17, t.second, 2);
    ParseZoneOfZone(t.offsetMinutes);
  }


  /** Two readings in the same zone: their texts sort exactly as the readings
      do, field by field. (Section 5.1 of RFC 3339 makes the same promise only
      for a shared offset.) */
  lemma FormatOrderSameZone(a: Clock, b: Clock)
    requires a.offsetMinutes == b.offsetMinutes
    ensures LexLess(Format(a), Format(b)) <==> CivilLess(a, b)
  {
    var z := Zone(a.offsetMinutes);
    LexLessIrreflexive(z);
    // Peel one fixed-width field (and the separator after it) at a time.
    var s6a, s6b := Pad(a.second, 2) + z, Pad(b.second, 2) + z;
    LexLessConcat(Pad(a.second, 2), z, Pad(b.second, 2), z);
    PadOrder(a.second, b.second, 2);
    PadInjective(a.second, b.second, 2);
    var s5a, s5b := Pad(a.minute, 2) + (":" + s6a), Pad(b.minute, 2) + (":" + s6b);
    LexLessConcat(":", s6a, ":", s6b);
    LexLessIrreflexive(":");
    LexLessConcat(Pad(a.minute, 2), ":" + s6a, Pad(b.minute, 2), ":" + s6b);
    PadOrder(a.minute, b.minute, 2);
    PadInjective(a.minute, b.minute, 2);
    var s4a, s4b := Pad(a.hour, 2) + (":" + s5a), Pad(b.hour, 2) + (":" + s5b);
    LexLessConcat(":", s5a, ":", s5b);
    LexLessConcat(Pad(a.hour, 2), ":" + s5a, Pad(b.hour, 2), ":" + s5b);
    PadOrder(a.hour, b.hour, 2);
    PadInjective(a.hour, b.hour, 2);
    var s3a, s3b := Pad(a.day, 2) + ("T" + s4a), Pad(b.day, 2) + ("T" + s4b);
    LexLessConcat("T", s4a, "T", s4b);
    LexLessIrreflexive("T");
    LexLessConcat(Pad(a.day, 2), "T" + s4a, Pad(b.day, 2), "T" + s4b);
    PadOrder(a.day, b.day, 2);
    PadInjective(a.day, b.day, 2);
    var s2a, s2b := Pad(a.month, 2) + ("-" + s3a), Pad(b.month, 2) + ("-" + s3b);
    LexLessConcat("-", s3a, "-", s3b);
    LexLessIrreflexive("-");
    LexLessConcat(Pad(a.month, 2), "-" + s3a, Pad(b.month, 2), "-" + s3b);
    PadOrder(a.month, b.month, 2);
    PadInjective(a.month, b.month, 2);
    LexLessConcat("-", s2a, "-", s2b);
    LexLessConcat(Pad(a.year, 4), "-" + s2a, Pad(b.year, 4), "-" + s2b);
    PadOrder(a.year, b.year, 4);
    PadInjective(a.year, b.year, 4);
    assert Format(a) == Pad(a.year, 4) + ("-" + s2a);
    assert Format(b) == Pad(b.year, 4) + ("-" + s2b);
  }

  /** The text up to the hour, and what follows it. */
  function UpToHour(t: Clock): (s: string)
    ensures |s| == 13
  {
    Pad(t.year, 4) + ("-" + (Pad(t.month, 2) + ("-" + (Pad(t.day, 2) + ("T" + Pad(t.hour, 2))))))
  }

  function AfterHour(t: Clock): (s: string)
  {
    ":" + (Pad(t.minute, 2) + (":" + (Pad(t.second, 2) + Zone(t.offsetMinutes))))
  }

  lemma FormatSplitAtHour(t: Clock)
    ensures Format(t) == UpToHour(t) + AfterHour(t)
  {
  }

  lemma HourInUpToHour(t: Clock)
    ensures UpToHour(t)[11..13] == Pad(t.hour, 2)
  {
    var s := UpToHour(t);
    var tail := Pad(t.day, 2) + ("T" + Pad(t.hour, 2));
    assert s == Pad(t.year, 4) + ("-" + (Pad(t.month, 2) + ("-" + tail)));
    assert s[8..] == tail;
    assert tail[3..5] == Pad(t.hour, 2);
  }

  /** When the texts differ before the minutes, the rest does not matter. */
  lemma OrderDecidedByHour(a: Clock, b: Clock, c: Clock)
    requires UpToHour(a) != UpToHour(b) && UpToHour(c) == UpToHour(b)
    ensures LexLess(Format(a), Format(b)) <==> LexLess(Format(a), Format(c))
  {
    FormatSplitAtHour(a);
    FormatSplitAtHour(b);
    FormatSplitAtHour(c);
    LexLessConcat(UpToHour(a), AfterHour(a), UpToHour(b), AfterHour(b));
    LexLessConcat(UpToHour(a), AfterHour(a), UpToHour(c), AfterHour(c));
  }

  /** 12:00 at UTC+1 is half an hour before 11:30 UTC. */
  lemma MixedZonesInstants()
    ensures UnixSeconds(DateTime(2026, 2, 3, 12, 0, 0, 0, 60)) < UnixSeconds(DateTime(2026, 2, 3, 11, 30, 0, 0, 0))
  {
    var days := DaysFromCivil(2026, 2, 3);
    assert UnixSeconds(DateTime(2026, 2, 3, 12, 0, 0, 0, 60)) == days * 86400 + 12 * 3600 - 3600;
    assert UnixSeconds(DateTime(2026, 2, 3, 11, 30, 0, 0, 0)) == days * 86400 + 11 * 3600 + 30 * 60;
  }

  /** ... yet the text of 11:30 UTC sorts before the text of 12:00 at UTC+1. */
  lemma MixedZonesTexts()
    ensures LexLess(Format(DateTime(2026, 2, 3, 11, 30, 0, 0, 0)), Format(DateTime(2026, 2, 3, 12, 0, 0, 0, 60)))
  {
    var a: Clock := DateTime(2026, 2, 3, 12, 0, 0, 0, 60);
    var b: Clock := DateTime(2026, 2, 3, 11, 30, 0, 0, 0);
    var a': Clock := a.(offsetMinutes := 0);
    FormatOrderSameZone(b, a');
    HourInUpToHour(b);
    HourInUpToHour(a);
    PadInjective(11, 12, 2);
    assert UpToHour(b) != UpToHour(a);
    assert UpToHour(a') == UpToHour(a);
    OrderDecidedByHour(b, a, a');
  }

  /** With different offsets the text order and the time order can disagree:
      12:00 at UTC+1 is 11:00 UTC, half an hour before 11:30 UTC, yet its
      text sorts after it. */
  lemma FormatOrderMixedZones()
    ensures
      var a: Clock := DateTime(2026, 2, 3, 12, 0, 0, 0, 60);
      var b: Clock := DateTime(2026, 2, 3, 11, 30, 0, 0, 0);
      UnixSeconds(a) < UnixSeconds(b) && LexLess(Format(b), Format(a))
  {
    MixedZonesInstants();
    MixedZonesTexts();
  }
}
