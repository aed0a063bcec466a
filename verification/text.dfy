/** The handful of Go `strings` and `fmt` operations the pipeline's logic
    depends on, defined over `string` (a sequence of characters). */
module Text {

  /** Go's strings.HasPrefix. */
  predicate HasPrefix(s: string, p: string) {
    |p| <= |s| && s[..|p|] == p
  }

  /** Go's strings.HasSuffix. */
  predicate HasSuffix(s: string, p: string) {
    |p| <= |s| && s[|s| - |p|..] == p
  }

  /** Go's strings.Contains: `sub` occurs at some position of `s`.
      The empty string occurs in every string. */
  predicate Contains(s: string, sub: string)
    decreases |s|
  {
    HasPrefix(s, sub) || (|s| > 0 && Contains(s[1..], sub))
  }

  /** `sub` occurs in `s` starting exactly at index `i`. */
  predicate OccursAt(s: string, sub: string, i: int) {
    0 <= i && i + |sub| <= |s| && s[i..i + |sub|] == sub
  }

  /** Go's strings.TrimPrefix: drops `p` once from the front, if it is there. */
  function TrimPrefix(s: string, p: string): (r: string)
    ensures HasPrefix(s, p) ==> s == p + r
    ensures !HasPrefix(s, p) ==> r == s
  {
    if HasPrefix(s, p) then s[|p|..] else s
  }

  /** Go's strings.TrimSuffix: drops `p` once from the end, if it is there. */
  function TrimSuffix(s: string, p: string): (r: string)
    ensures HasSuffix(s, p) ==> s == r + p
    ensures !HasSuffix(s, p) ==> r == s
  {
    if HasSuffix(s, p) then s[..|s| - |p|] else s
  }

  /** Go's unicode.IsSpace: the ASCII white space characters, NEL, NO-BREAK
      SPACE and the other characters with the Unicode White_Space property. */
  predicate IsSpace(c: char) {
    || c == '\t' || c == '\n' || c == '\U{000B}' || c == '\U{000C}' || c == '\r' || c == ' '
    || c == '\U{0085}' || c == '\U{00A0}' || c == '\U{1680}'
    || ('\U{2000}' <= c <= '\U{200A}')
    || c == '\U{2028}' || c == '\U{2029}' || c == '\U{202F}' || c == '\U{205F}' || c == '\U{3000}'
  }

  predicate AllSpace(t: string) {
    forall k :: 0 <= k < |t| ==> IsSpace(t[k])
  }

  function TrimLeftSpace(s: string): (r: string)
    decreases |s|
  {
    if |s| > 0 && IsSpace(s[0]) then TrimLeftSpace(s[1..]) else s
  }

  function TrimRightSpace(s: string): (r: string)
    decreases |s|
  {
    if |s| > 0 && IsSpace(s[|s| - 1]) then TrimRightSpace(s[..|s| - 1]) else s
  }

  /** Go's strings.TrimSpace: drops leading and trailing white space. */
  function TrimSpace(s: string): (r: string)
  {
    TrimRightSpace(TrimLeftSpace(s))
  }

  /** Go's strings.Join. */
  function Join(parts: seq<string>, sep: string): (r: string)
  {
    if |parts| == 0 then ""
    else if |parts| == 1 then parts[0]
    else parts[0] + sep + Join(parts[1..], sep)
  }

  /** Index of the first `c` in `s`. */
  function IndexOf(s: string, c: char): (k: nat)
    requires c in s
    ensures k < |s| && s[k] == c && c !in s[..k]
  {
    if s[0] == c then 0
    else
      assert c in s[1..] by { var i :| 0 <= i < |s| && s[i] == c; assert s[1..][i - 1] == c; }
      1 + IndexOf(s[1..], c)
  }

  /** Go's strings.Split with a one-character separator. */
  function Split(s: string, c: char): (parts: seq<string>)
    ensures |parts| >= 1
    ensures forall i :: 0 <= i < |parts| ==> c !in parts[i]
    decreases |s|
  {
    if c !in s then [s]
    else
      var k := IndexOf(s, c);
      [s[..k]] + Split(s[k + 1..], c)
  }

  /** ASCII decimal digit (Go's regexp `\d`). */
  predicate IsDigit(c: char) {
    '0' <= c <= '9'
  }

  /** ASCII letter (the regexp class `[A-Za-z]`). */
  predicate IsLetter(c: char) {
    ('A' <= c <= 'Z') || ('a' <= c <= 'z')
  }

  predicate AllDigits(s: string) {
    forall i :: 0 <= i < |s| ==> IsDigit(s[i])
  }

  function DigitChar(d: nat): (c: char)
    requires d < 10
    ensures IsDigit(c) && c as int - '0' as int == d
  {
    (d + '0' as int) as char
  }

  /** Go's `%d` for a non-negative integer: the shortest decimal numeral. */
  function NatToDecimal(n: nat): (s: string)
    ensures 1 <= |s| && AllDigits(s)
    decreases n
  {
    if n < 10 then [DigitChar(n)] else NatToDecimal(n / 10) + [DigitChar(n % 10)]
  }

  /** Go's `%d` for any integer: a minus sign before the numeral of its magnitude. */
  function IntToDecimal(n: int): (s: string)
    ensures forall i :: 0 <= i < |s| ==> IsDigit(s[i]) || s[i] == '-'
  {
    if n < 0 then "-" + NatToDecimal(-n) else NatToDecimal(n)
  }

  /** Value of a string of decimal digits, most significant first. */
  function DigitsValue(s: string): nat
    requires AllDigits(s)
  {
    if |s| == 0 then 0
    else DigitsValue(s[..|s| - 1]) * 10 + (s[|s| - 1] as int - '0' as int)
  }

  /** Byte-wise (code point) order, the order of SQLite's BINARY collation on text. */
  predicate LexLess(a: string, b: string) {
    if |a| == 0 then |b| > 0
    else if |b| == 0 then false
    else a[0] < b[0] || (a[0] == b[0] && LexLess(a[1..], b[1..]))
  }

  predicate LexLe(a: string, b: string) {
    a == b || LexLess(a, b)
  }

  // ---------------------------------------------------------------------------
  // Lemmas

  /** An occurrence found by Contains is a position of `sub` in `s`, and back. */
  lemma {:induction false} ContainsIffOccurs(s: string, sub: string)
    ensures Contains(s, sub) <==> exists i :: OccursAt(s, sub, i)
    decreases |s|
  {
    if HasPrefix(s, sub) {
      assert OccursAt(s, sub, 0);
    } else if |s| == 0 {
    } else {
      ContainsIffOccurs(s[1..], sub);
      if exists i :: OccursAt(s[1..], sub, i) {
        var i :| OccursAt(s[1..], sub, i);
        assert s[1..][i..i + |sub|] == s[i + 1..i + 1 + |sub|];
        assert OccursAt(s, sub, i + 1);
      }
      if exists i :: OccursAt(s, sub, i) {
        var i :| OccursAt(s, sub, i);
        assert i != 0;
        assert s[1..][i - 1..i - 1 + |sub|] == s[i..i + |sub|];
        assert OccursAt(s[1..], sub, i - 1);
      }
    }
  }

  /** A prefix that never holds the first character of `sub` cannot host an
      occurrence that starts inside it, so `sub` occurs in `p + s` exactly
      when it occurs in `s`. */
  lemma {:induction false} ContainsAfterForeignPrefix(p: string, s: string, sub: string)
    requires |sub| > 0
    requires sub[0] !in p
    ensures Contains(p + s, sub) <==> Contains(s, sub)
    decreases |p|
  {
    if |p| == 0 {
      assert p + s == s;
    } else {
      assert (p + s)[0] == p[0];
      assert !HasPrefix(p + s, sub);
      assert (p + s)[1..] == p[1..] + s;
      ContainsAfterForeignPrefix(p[1..], s, sub);
    }
  }

  /** A string without the first character of `sub` does not contain `sub`. */
  lemma NotContainsForeign(s: string, sub: string)
    requires |sub| > 0
    requires sub[0] !in s
    ensures !Contains(s, sub)
  {
    ContainsAfterForeignPrefix(s, "", sub);
    assert s + "" == s;
  }

  lemma ContainsItsPrefix(sub: string, s: string)
    ensures Contains(sub + s, sub)
  {
    assert (sub + s)[..|sub|] == sub;
  }

  /** TrimPrefix undoes prepending. */
  lemma TrimPrefixOfPrepended(p: string, k: string)
    ensures TrimPrefix(p + k, p) == k
  {
    assert (p + k)[..|p|] == p;
    assert (p + k)[|p|..] == k;
  }

  lemma {:induction false} DigitsValueOfNumeral(n: nat)
    ensures DigitsValue(NatToDecimal(n)) == n
    decreases n
  {
    var s := NatToDecimal(n);
    if n < 10 {
    } else {
      DigitsValueOfNumeral(n / 10);
      assert s[..|s| - 1] == NatToDecimal(n / 10);
    }
  }

  /** Splitting the joined text on the separator gives the parts back,
      provided no part contains the separator. */
  lemma {:induction false} SplitJoin(parts: seq<string>, c: char)
    requires |parts| >= 1
    requires forall i :: 0 <= i < |parts| ==> c !in parts[i]
    ensures Split(Join(parts, [c]), c) == parts
    decreases |parts|
  {
    if |parts| == 1 {
    } else {
      var rest := Join(parts[1..], [c]);
      var s := parts[0] + [c] + rest;
      assert Join(parts, [c]) == s;
      assert s[|parts[0]|] == c;
      assert c in s;
      var k := IndexOf(s, c);
      assert s[..|parts[0]|] == parts[0];
      assert k == |parts[0]|;
      assert s[k + 1..] == rest;
      SplitJoin(parts[1..], c);
      assert Split(s, c) == [parts[0]] + parts[1..];
    }
  }

  /** Joining the pieces of a split on the same separator restores the text. */
  lemma {:induction false} JoinSplit(s: string, c: char)
    ensures Join(Split(s, c), [c]) == s
    decreases |s|
  {
    if c !in s {
    } else {
      var k := IndexOf(s, c);
      JoinSplit(s[k + 1..], c);
      var tail := Split(s[k + 1..], c);
      var parts := [s[..k]] + tail;
      assert parts[1..] == tail;
      assert Join(parts, [c]) == s[..k] + [c] + Join(tail, [c]);
      assert s == s[..k] + [c] + s[k + 1..];
    }
  }

  /** TrimLeftSpace drops a run of white space from the front, up to the
      first other character. */
  lemma {:induction false} TrimLeftSpaceSplit(s: string)
    ensures var r := TrimLeftSpace(s);
      && |r| <= |s| && s == s[..|s| - |r|] + r && AllSpace(s[..|s| - |r|])
      && (|r| > 0 ==> !IsSpace(r[0]))
    decreases |s|
  {
    if |s| > 0 && IsSpace(s[0]) {
      var r := TrimLeftSpace(s[1..]);
      TrimLeftSpaceSplit(s[1..]);
      var lead' := s[1..][..|s[1..]| - |r|];
      var lead := s[..|s| - |r|];
      assert lead == [s[0]] + lead';
      assert s == [s[0]] + s[1..];
      forall k | 0 <= k < |lead| ensures IsSpace(lead[k]) {
        if k > 0 { assert lead[k] == lead'[k - 1]; }
      }
    }
  }

  /** TrimRightSpace drops a run of white space from the end, back to the
      last other character. */
  lemma {:induction false} TrimRightSpaceSplit(s: string)
    ensures var r := TrimRightSpace(s);
      && |r| <= |s| && s == r + s[|r|..] && AllSpace(s[|r|..])
      && (|r| > 0 ==> !IsSpace(r[|r| - 1]))
    decreases |s|
  {
    if |s| > 0 && IsSpace(s[|s| - 1]) {
      var init := s[..|s| - 1];
      var r := TrimRightSpace(init);
      TrimRightSpaceSplit(init);
      var trail := s[|r|..];
      assert trail == init[|r|..] + [s[|s| - 1]];
      assert s == init + [s[|s| - 1]];
      forall k | 0 <= k < |trail| ensures IsSpace(trail[k]) {
        if k < |trail| - 1 { assert trail[k] == init[|r|..][k]; }
      }
    }
  }

  /** TrimSpace drops only white space, and only from the ends. */
  lemma TrimSpaceDropsOnlySpace(s: string)
    ensures var r := TrimSpace(s);
      exists lead, trail :: s == lead + r + trail && AllSpace(lead) && AllSpace(trail)
  {
    var l := TrimLeftSpace(s);
    var r := TrimRightSpace(l);
    TrimLeftSpaceSplit(s);
    TrimRightSpaceSplit(l);
    var lead := s[..|s| - |l|];
    var trail := l[|r|..];
    assert s == lead + r + trail;
  }

  /** TrimSpace leaves no white space at either end. */
  lemma TrimSpaceEnds(s: string)
    ensures var r := TrimSpace(s);
      |r| > 0 ==> !IsSpace(r[0]) && !IsSpace(r[|r| - 1])
  {
    var l := TrimLeftSpace(s);
    var r := TrimRightSpace(l);
    TrimLeftSpaceSplit(s);
    TrimRightSpaceSplit(l);
    if |r| > 0 {
      assert l[0] == r[0];
    }
  }

  /** Trimming twice is trimming once. */
  lemma TrimSpaceIdempotent(s: string)
    ensures TrimSpace(TrimSpace(s)) == TrimSpace(s)
  {
    var r := TrimSpace(s);
    TrimSpaceEnds(s);
    assert TrimLeftSpace(r) == r;
    assert TrimRightSpace(r) == r;
  }

  lemma {:induction false} LexLessIrreflexive(a: string)
    ensures !LexLess(a, a)
    decreases |a|
  {
    if |a| > 0 {
      LexLessIrreflexive(a[1..]);
    }
  }

  lemma {:induction false} LexLessTransitive(a: string, b: string, c: string)
    requires LexLess(a, b) && LexLess(b, c)
    ensures LexLess(a, c)
    decreases |a|
  {
    if |a| > 0 && a[0] == b[0] && b[0] == c[0] {
      LexLessTransitive(a[1..], b[1..], c[1..]);
    }
  }

  lemma {:induction false} LexTotal(a: string, b: string)
    ensures a == b || LexLess(a, b) || LexLess(b, a)
    decreases |a|
  {
    if |a| > 0 && |b| > 0 && a[0] == b[0] {
      LexTotal(a[1..], b[1..]);
      if a[1..] == b[1..] {
        assert a == [a[0]] + a[1..] && b == [b[0]] + b[1..];
      }
    }
  }

  lemma LexLessAsymmetric(a: string, b: string)
    requires LexLess(a, b)
    ensures !LexLess(b, a)
  {
    if LexLess(b, a) {
      LexLessTransitive(a, b, a);
      LexLessIrreflexive(a);
    }
  }

  lemma LexLeTransitive(a: string, b: string, c: string)
    requires LexLe(a, b) && LexLe(b, c)
    ensures LexLe(a, c)
  {
    if a != b && b != c {
      LexLessTransitive(a, b, c);
    }
  }

  /** Comparing two concatenations whose first parts have the same length
      compares the first parts, and the second parts only on a tie. */
  lemma {:induction false} LexLessConcat(a: string, b: string, c: string, d: string)
    requires |a| == |c|
    ensures LexLess(a + b, c + d) <==> LexLess(a, c) || (a == c && LexLess(b, d))
    decreases |a|
  {
    if |a| == 0 {
      assert a + b == b && c + d == d;
    } else {
      assert (a + b)[0] == a[0] && (c + d)[0] == c[0];
      assert (a + b)[1..] == a[1..] + b && (c + d)[1..] == c[1..] + d;
      LexLessConcat(a[1..], b, c[1..], d);
      if a[0] == c[0] && a[1..] == c[1..] {
        assert a == [a[0]] + a[1..] && c == [c[0]] + c[1..];
      }
      if a == c {
        assert a[1..] == c[1..];
      }
    }
  }
}
