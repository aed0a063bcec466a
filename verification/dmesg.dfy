/** The agent's log-line filtering of internal/agent/dmesg.go: recognising
    the bracketed `dmesg -T` timestamp at the head of a line, keeping the
    lines newer than the last one sent, and capping a batch to its most
    recent lines.

    Instants are whole seconds on the Unix scale; only their order matters.
    Reading the 24-character timestamp text as a calendar time (Go's
    time.Parse with layout "Mon Jan _2 15:04:05 2006") is a parameter
    `parse`, a partial function, since calendar validity is not modelled. */
module Dmesg {
  import opened Wrappers
  import opened Text
  import opened Rfc3339

  type Instant = int

  /** A calendar-text reader: the instant a timestamp text denotes, if any. */
  type TimeParser = string -> Option<Instant>

  /** Go's zero time, 0001-01-01T00:00:00Z, on the Unix scale. */
  const ZeroInstant: Instant := -62135596800

  /** The most lines one batch may carry. */
  const MaxLines := 500

  // ---------------------------------------------------------------------------
  // The timestamp pattern

  /** One position of the anchored pattern `^\[[A-Za-z]{3} [A-Za-z]{3} [ \d]\d \d{2}:\d{2}:\d{2} \d{4}\]`. */
  datatype CharClass = Lit(c: char) | Letter | Digit | SpaceOrDigit

  predicate InClass(c: char, k: CharClass) {
    match k
    case Lit(l) => c == l
    case Letter => IsLetter(c)
    case Digit => IsDigit(c)
    case SpaceOrDigit => c == ' ' || IsDigit(c)
  }

  /** The pattern, one class per character: every repetition in it has a
      fixed count, so a match is always 26 characters long. */
  const TimestampPattern: seq<CharClass> :=
    [Lit('['), Letter, Letter, Letter, Lit(' '), Letter, Letter, Letter, Lit(' '),
     SpaceOrDigit, Digit, Lit(' '), Digit, Digit, Lit(':'), Digit, Digit, Lit(':'), Digit, Digit,
     Lit(' '), Digit, Digit, Digit, Digit, Lit(']')]

  /** The line starts with text matching the pattern. */
  predicate MatchesPrefix(line: string, pattern: seq<CharClass>) {
    |pattern| <= |line| && forall i :: 0 <= i < |pattern| ==> InClass(line[i], pattern[i])
  }

  /** The regexp's first submatch: the text between the brackets. */
  function Capture(line: string): (c: string)
    requires MatchesPrefix(line, TimestampPattern)
    ensures |c| == 24
  {
    line[1..25]
  }

  /** ParseDmesgTimestamp: no instant unless the line starts with the
      bracketed shape; otherwise whatever the calendar reading of the
      bracketed text gives. */
  function ParseDmesgTimestamp(line: string, parse: TimeParser): (r: Option<Instant>)
  {
    if MatchesPrefix(line, TimestampPattern) then parse(Capture(line)) else None
  }

  // ---------------------------------------------------------------------------
  // FilterNewLines

  /** A line FilterNewLines keeps: its timestamp reads, and is strictly
      after `lastSeen`. */
  predicate IsNew(line: string, lastSeen: Instant, parse: TimeParser) {
    var ts := ParseDmesgTimestamp(line, parse);
    ts.Some? && ts.value > lastSeen
  }

  /** The timestamp of a line that has one. */
  function TimestampOf(line: string, parse: TimeParser): (t: Instant)
    requires ParseDmesgTimestamp(line, parse).Some?
  {
    ParseDmesgTimestamp(line, parse).value
  }

  /** FilterNewLines: the state of its loop after the whole input, i.e. the
      kept lines and the latest kept timestamp (starting from the zero time). */
  function FilterNewLines(lines: seq<string>, lastSeen: Instant, parse: TimeParser)
    : (r: (seq<string>, Instant))
    ensures |r.0| <= |lines|
    ensures r.1 >= ZeroInstant
    decreases |lines|
  {
    if |lines| == 0 then ([], ZeroInstant)
    else
      var prev := FilterNewLines(lines[..|lines| - 1], lastSeen, parse);
      var line := lines[|lines| - 1];
      var ts := ParseDmesgTimestamp(line, parse);
      if ts.None? || !(ts.value > lastSeen) then prev
      else (prev.0 + [line], if ts.value > prev.1 then ts.value else prev.1)
  }

  /** `a` is `b` with some elements left out, the rest in their order. */
  predicate IsSubsequence(a: seq<string>, b: seq<string>)
    decreases |b|
  {
    if |a| == 0 then true
    else if |b| == 0 then false
    else if a[|a| - 1] == b[|b| - 1] then IsSubsequence(a[..|a| - 1], b[..|b| - 1])
    else IsSubsequence(a, b[..|b| - 1])
  }

  // ---------------------------------------------------------------------------
  // CapLines

  /** CapLines: at most MaxLines lines, the last ones, and whether any were
      dropped. */
  function CapLines(lines: seq<string>): (r: (seq<string>, bool))
    ensures r.1 <==> |lines| > MaxLines
    ensures |r.0| == if |lines| <= MaxLines then |lines| else MaxLines
    ensures lines == lines[..|lines| - |r.0|] + r.0
  {
    if |lines| <= MaxLines then (lines, false)
    else
      assert lines == lines[..|lines| - MaxLines] + lines[|lines| - MaxLines..];
      (lines[|lines| - MaxLines..], true)
  }

  // ---------------------------------------------------------------------------
  // Lemmas

  /** The pattern fixes the layout of the captured text: day and month
      names of three letters, a space-padded day, a colon-separated time and
      a four-digit year. */
  lemma CaptureLayout(line: string)
    requires MatchesPrefix(line, TimestampPattern)
    ensures var c := Capture(line);
      && c[3] == ' ' && c[7] == ' ' && c[10] == ' ' && c[13] == ':' && c[16] == ':' && c[19] == ' '
      && (forall i :: 0 <= i < 3 ==> IsLetter(c[i]))
      && (forall i :: 4 <= i < 7 ==> IsLetter(c[i]))
      && (c[8] == ' ' || IsDigit(c[8])) && IsDigit(c[9])
      && AllDigits(c[11..13]) && AllDigits(c[14..16]) && AllDigits(c[17..19]) && AllDigits(c[20..24])
      && line[0] == '[' && line[25] == ']'
  {
    var c := Capture(line);
    forall i | 0 <= i < 2 ensures IsDigit(c[14..16][i]) {
      assert InClass(line[i + 15], TimestampPattern[i + 15]);
    }
    forall i | 0 <= i < 2 ensures IsDigit(c[17..19][i]) {
      assert InClass(line[i + 18], TimestampPattern[i + 18]);
    }
    assert InClass(line[0], TimestampPattern[0]);
    assert InClass(line[9], TimestampPattern[9]);
    forall i | 0 <= i < 3 ensures IsLetter(c[i]) {
      assert InClass(line[i + 1], TimestampPattern[i + 1]);
    }
    forall i | 4 <= i < 7 ensures IsLetter(c[i]) {
      assert InClass(line[i + 1], TimestampPattern[i + 1]);
    }
    forall i | 0 <= i < 4 ensures IsDigit(c[20..24][i]) {
      assert InClass(line[i + 21], TimestampPattern[i + 21]);
    }
    forall i | 0 <= i < 2 ensures IsDigit(c[11..13][i]) {
      assert InClass(line[i + 12], TimestampPattern[i + 12]);
    }
    assert InClass(line[10], TimestampPattern[10]);
    assert InClass(line[4], TimestampPattern[4]);
    assert InClass(line[8], TimestampPattern[8]);
    assert InClass(line[11], TimestampPattern[11]);
    assert InClass(line[14], TimestampPattern[14]);
    assert InClass(line[17], TimestampPattern[17]);
    assert InClass(line[20], TimestampPattern[20]);
    assert InClass(line[25], TimestampPattern[25]);
  }

  /** A line without the bracketed shape has no timestamp, whatever the
      calendar reading would say; one with it is read from exactly the
      bracketed text, whatever follows the bracket. */
  lemma TimestampNeedsShape(line: string, rest: string, parse: TimeParser)
    ensures !MatchesPrefix(line, TimestampPattern) ==> ParseDmesgTimestamp(line, parse) == None
    ensures MatchesPrefix(line, TimestampPattern) ==>
      ParseDmesgTimestamp(line + rest, parse) == ParseDmesgTimestamp(line, parse) == parse(line[1..25])
  {
    if MatchesPrefix(line, TimestampPattern) {
      assert forall i :: 0 <= i < |line| ==> (line + rest)[i] == line[i];
      assert (line + rest)[1..25] == line[1..25];
    }
  }

  /** A line without the bracketed shape: the empty line and a line of prose. */
  lemma SampleLinesWithoutTimestamp(parse: TimeParser)
    ensures ParseDmesgTimestamp("", parse) == None
    ensures ParseDmesgTimestamp("no timestamp here", parse) == None
  {
    assert !InClass("no timestamp here"[0], TimestampPattern[0]);
  }

  /** The pattern accepts a stamp line of `dmesg -T` character by character. */
  lemma StampMatches(stamp: string)
    requires stamp == "[Mon Feb  3 12:25:01 2026]" || stamp == "[Tue Jan 14 09:05:33 2026]"
    ensures MatchesPrefix(stamp, TimestampPattern)
  {
    forall i | 0 <= i < |TimestampPattern| ensures InClass(stamp[i], TimestampPattern[i]) {
      if i < 9 {
        assert i == 0 || i == 1 || i == 2 || i == 3 || i == 4 || i == 5 || i == 6 || i == 7 || i == 8;
      } else if i < 18 {
        assert i == 9 || i == 10 || i == 11 || i == 12 || i == 13 || i == 14 || i == 15 || i == 16 || i == 17;
      } else {
        assert i == 18 || i == 19 || i == 20 || i == 21 || i == 22 || i == 23 || i == 24 || i == 25;
      }
    }
  }

  lemma Bracketed(c: string)
    requires |c| == 24
    ensures ("[" + c + "]")[1..25] == c
  {
  }

  /** Lines as `dmesg -T` prints them, with a space-padded day and with a
      two-digit day, whatever message follows: the timestamp is read from
      the text between the brackets. */
  lemma SampleLinesWithTimestamp(rest: string, parse: TimeParser)
    ensures ParseDmesgTimestamp("[Mon Feb  3 12:25:01 2026]" + rest, parse) == parse("Mon Feb  3 12:25:01 2026")
    ensures ParseDmesgTimestamp("[Tue Jan 14 09:05:33 2026]" + rest, parse) == parse("Tue Jan 14 09:05:33 2026")
  {
    assert "[Mon Feb  3 12:25:01 2026]" == "[" + "Mon Feb  3 12:25:01 2026" + "]";
    assert "[Tue Jan 14 09:05:33 2026]" == "[" + "Tue Jan 14 09:05:33 2026" + "]";
    StampMatches("[Mon Feb  3 12:25:01 2026]");
    TimestampNeedsShape("[Mon Feb  3 12:25:01 2026]", rest, parse);
    Bracketed("Mon Feb  3 12:25:01 2026");
    StampMatches("[Tue Jan 14 09:05:33 2026]");
    TimestampNeedsShape("[Tue Jan 14 09:05:33 2026]", rest, parse);
    Bracketed("Tue Jan 14 09:05:33 2026");
  }

  /** Every kept line is new, and every new line is kept as often as it
      occurs: a line's multiplicity in the result is its multiplicity in
      the input if it is new, zero otherwise. */
  lemma {:induction false} FilterKeepsExactlyNew(lines: seq<string>, lastSeen: Instant, parse: TimeParser)
    ensures forall x :: multiset(FilterNewLines(lines, lastSeen, parse).0)[x]
                     == if IsNew(x, lastSeen, parse) then multiset(lines)[x] else 0
    decreases |lines|
  {
    if |lines| > 0 {
      var init := lines[..|lines| - 1];
      FilterKeepsExactlyNew(init, lastSeen, parse);
      assert lines == init + [lines[|lines| - 1]];
    }
  }

  /** The kept lines are in input order. */
  lemma {:induction false} FilterIsSubsequence(lines: seq<string>, lastSeen: Instant, parse: TimeParser)
    ensures IsSubsequence(FilterNewLines(lines, lastSeen, parse).0, lines)
    decreases |lines|
  {
    if |lines| > 0 {
      var init := lines[..|lines| - 1];
      var kept := FilterNewLines(init, lastSeen, parse).0;
      FilterIsSubsequence(init, lastSeen, parse);
      var r := FilterNewLines(lines, lastSeen, parse).0;
      if r == kept {
        SubsequenceOfLonger(kept, init, lines[|lines| - 1]);
        assert init + [lines[|lines| - 1]] == lines;
      } else {
        assert r[..|r| - 1] == kept;
      }
    }
  }

  lemma {:induction false} SubsequenceOfLonger(a: seq<string>, b: seq<string>, x: string)
    requires IsSubsequence(a, b)
    ensures IsSubsequence(a, b + [x])
    decreases |b|, 1
  {
    var b' := b + [x];
    assert b'[..|b'| - 1] == b;
    if |a| > 0 && a[|a| - 1] == x {
      SubsequenceDropLast(a, b);
    }
  }

  lemma {:induction false} SubsequenceDropLast(a: seq<string>, b: seq<string>)
    requires |a| > 0 && IsSubsequence(a, b)
    ensures IsSubsequence(a[..|a| - 1], b)
    decreases |b|, 0
  {
    var a' := a[..|a| - 1];
    if |a'| > 0 {
      var b' := b[..|b| - 1];
      if a[|a| - 1] == b[|b| - 1] {
        SubsequenceOfLonger(a', b', b[|b| - 1]);
        assert b' + [b[|b| - 1]] == b;
      } else {
        SubsequenceDropLast(a, b');
        SubsequenceOfLonger(a', b', b[|b| - 1]);
        assert b' + [b[|b| - 1]] == b;
      }
    }
  }

  /** The returned instant starts at the zero time and only ever moves to a
      later kept timestamp: no kept line is later than it, and unless it is
      still the zero time (nothing kept, or every kept timestamp at or before
      the zero time) some kept line carries it. */
  lemma {:induction false} LatestIsMaximum(lines: seq<string>, lastSeen: Instant, parse: TimeParser)
    ensures var (kept, latest) := FilterNewLines(lines, lastSeen, parse);
      && (forall i :: 0 <= i < |kept| ==>
            ParseDmesgTimestamp(kept[i], parse).Some? && TimestampOf(kept[i], parse) <= latest)
      && (latest == ZeroInstant ||
            exists i :: 0 <= i < |kept| && ParseDmesgTimestamp(kept[i], parse) == Some(latest))
      && (|kept| == 0 ==> latest == ZeroInstant)
    decreases |lines|
  {
    if |lines| > 0 {
      var init := lines[..|lines| - 1];
      LatestIsMaximum(init, lastSeen, parse);
      var (kept, latest) := FilterNewLines(lines, lastSeen, parse);
      var prev := FilterNewLines(init, lastSeen, parse);
      if kept != prev.0 {
        assert kept[..|kept| - 1] == prev.0;
        assert forall i :: 0 <= i < |prev.0| ==> kept[i] == prev.0[i];
        var last := lines[|lines| - 1];
        assert kept[|kept| - 1] == last;
        if latest == TimestampOf(last, parse) {
          assert ParseDmesgTimestamp(kept[|kept| - 1], parse) == Some(latest);
        } else if latest != ZeroInstant {
          var i :| 0 <= i < |prev.0| && ParseDmesgTimestamp(prev.0[i], parse) == Some(latest);
          assert kept[i] == prev.0[i];
        }
      }
    }
  }

  /** A line stamped exactly `lastSeen` is not kept: "after" is strict. */
  lemma EqualTimestampDropped(lines: seq<string>, lastSeen: Instant, parse: TimeParser, x: string)
    requires ParseDmesgTimestamp(x, parse) == Some(lastSeen)
    ensures x !in FilterNewLines(lines, lastSeen, parse).0
  {
    FilterKeepsExactlyNew(lines, lastSeen, parse);
    assert x !in multiset(FilterNewLines(lines, lastSeen, parse).0);
  }

  /** Filtering the same lines again from the returned instant keeps
      nothing: every line kept the first time is at or before it. */
  lemma RefilterKeepsNothing(lines: seq<string>, lastSeen: Instant, parse: TimeParser)
    requires |FilterNewLines(lines, lastSeen, parse).0| > 0
    ensures var latest := FilterNewLines(lines, lastSeen, parse).1;
      && latest > lastSeen
      && FilterNewLines(lines, latest, parse).0 == []
  {
    var (kept, latest) := FilterNewLines(lines, lastSeen, parse);
    LatestIsMaximum(lines, lastSeen, parse);
    FilterKeepsExactlyNew(lines, lastSeen, parse);
    FilterKeepsExactlyNew(lines, latest, parse);
    assert kept[0] in multiset(kept);
    assert IsNew(kept[0], lastSeen, parse);
    forall x | x in multiset(lines) && IsNew(x, lastSeen, parse)
      ensures !IsNew(x, latest, parse)
    {
      assert x in multiset(kept);
      var i :| 0 <= i < |kept| && kept[i] == x;
    }
    var again := FilterNewLines(lines, latest, parse).0;
    assert multiset(again) == multiset{};
  }

  /** Capping an already capped batch changes nothing. */
  lemma CapIdempotent(lines: seq<string>)
    ensures CapLines(CapLines(lines).0) == (CapLines(lines).0, false)
  {
  }

  /** A capped batch keeps the most recent lines, in order: its i-th line is
      the input's line at the same distance from the end. */
  lemma CapKeepsMostRecent(lines: seq<string>)
    ensures var r := CapLines(lines).0;
      forall i :: 0 <= i < |r| ==> r[i] == lines[|lines| - |r| + i]
  {
    var r := CapLines(lines).0;
    assert lines == lines[..|lines| - |r|] + r;
  }

  /** The zero-time constant is year 1, January 1, midnight UTC. */
  lemma ZeroInstantIsZeroTime()
    ensures ZeroInstant == UnixSeconds(ZeroTime)
  {
  }
}
