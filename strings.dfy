/** The JavaScript string operations the routes and the feed page rely on:
    `trim`, the `\s` class, `toLowerCase`, `includes`, `split`/`join`,
    `length` in UTF-16 code units and the decimal rendering of a
    non-negative integer; and the first and last position of a character,
    which describe the greedy brace match of the analysis route. */
module Strings {

  /** JavaScript's WhiteSpace and LineTerminator characters: exactly what
      `String.prototype.trim` removes and what the regular-expression
      class `\s` matches. */
  predicate IsSpace(c: char) {
    c == ' ' || c == '\t' || c == '\n' || c == '\r' || c == '\U{B}' || c == '\U{C}'
    || c == '\U{A0}' || c == '\U{1680}' || ('\U{2000}' <= c <= '\U{200A}')
    || c == '\U{2028}' || c == '\U{2029}' || c == '\U{202F}' || c == '\U{205F}'
    || c == '\U{3000}' || c == '\U{FEFF}'
  }

  predicate IsBlank(s: string) {
    forall i :: 0 <= i < |s| ==> IsSpace(s[i])
  }

  /** The first position at or after `i` that does not hold white space, or
      the end of `s`. */
  function SpacesEnd(s: string, i: nat): (n: nat)
    requires i <= |s|
    ensures i <= n <= |s|
    ensures forall k :: i <= k < n ==> IsSpace(s[k])
    ensures n == |s| || !IsSpace(s[n])
    decreases |s| - i
  {
    if i < |s| && IsSpace(s[i]) then SpacesEnd(s, i + 1) else i
  }

  /** Drops the longest all-space prefix (the `\s*` after a fence marker, and
      the left half of `trim`). */
  function DropLeadingSpaces(s: string): (r: string)
    ensures |r| <= |s| && r == s[|s| - |r|..]
    ensures IsBlank(s[..|s| - |r|])
    ensures r == [] || !IsSpace(r[0])
  {
    var n := SpacesEnd(s, 0);
    assert IsBlank(s[..n]) by {
      forall k | 0 <= k < n ensures IsSpace(s[..n][k]) {
        assert s[..n][k] == s[k];
      }
    }
    assert |s| - |s[n..]| == n;
    s[n..]
  }

  /** The run of white space that starts at `i` ends at `k`: `s[i..k]` is
      what `\s*` matches at `i`. */
  predicate SpaceRun(s: string, i: int, k: int) {
    0 <= i <= k <= |s| && (forall p :: i <= p < k ==> IsSpace(s[p])) && (k == |s| || !IsSpace(s[k]))
  }

  /** `\s*` matches one way only. */
  lemma SpaceRunUnique(s: string, i: int, k1: int, k2: int)
    requires SpaceRun(s, i, k1) && SpaceRun(s, i, k2)
    ensures k1 == k2
  {
  }

  /** Drops the longest all-space suffix (the right half of `trim`). */
  function DropTrailingSpaces(s: string): (r: string)
    ensures r <= s
    ensures IsBlank(s[|r|..])
    ensures r == [] || !IsSpace(r[|r| - 1])
  {
    if |s| > 0 && IsSpace(s[|s| - 1]) then DropTrailingSpaces(s[..|s| - 1]) else s
  }

  /** `s` is `r` with white space, possibly none, on either side. */
  ghost predicate BlankPadded(s: string, r: string) {
    exists i :: OccursAt(s, r, i) && IsBlank(s[..i]) && IsBlank(s[i + |r|..])
  }

  /** What is left between a dropped blank prefix and a dropped blank
      suffix is a window with blank text on both sides. */
  lemma BetweenBlanks(s: string, t: string, r: string)
    requires |t| <= |s| && t == s[|s| - |t|..] && IsBlank(s[..|s| - |t|])
    requires r <= t && IsBlank(t[|r|..])
    ensures BlankPadded(s, r)
  {
    var i := |s| - |t|;
    assert s[i..i + |r|] == t[..|r|];
    assert s[i + |r|..] == t[|r|..];
    assert OccursAt(s, r, i) && IsBlank(s[..i]) && IsBlank(s[i + |r|..]);
  }

  /** When the prefix dropped is the longest blank one and the suffix the
      longest blank one, neither end of what is left is white space, and
      nothing is left exactly when everything was blank. */
  lemma NothingBetweenBlanks(s: string, t: string, r: string)
    requires |t| <= |s| && t == s[|s| - |t|..] && IsBlank(s[..|s| - |t|])
    requires t == [] || !IsSpace(t[0])
    requires r <= t && IsBlank(t[|r|..])
    requires r == [] || !IsSpace(r[|r| - 1])
    ensures r == [] || (!IsSpace(r[0]) && !IsSpace(r[|r| - 1]))
    ensures r == [] <==> IsBlank(s)
  {
    if r != [] {
      assert r[0] == t[0];
    } else {
      // t is blank, and a non-empty t would start with a non-space
      assert t[|r|..] == t;
      assert s[..|s| - |t|] == s;
    }
  }

  /** `s.trim()`: the window of `s` left between a blank prefix and a blank
      suffix, neither end of it white space. */
  function Trim(s: string): (r: string)
    ensures BlankPadded(s, r)
    ensures r == [] || (!IsSpace(r[0]) && !IsSpace(r[|r| - 1]))
    ensures r == [] <==> IsBlank(s)
  {
    var t := DropLeadingSpaces(s);
    var r := DropTrailingSpaces(t);
    BetweenBlanks(s, t, r);
    NothingBetweenBlanks(s, t, r);
    r
  }

  /** ASCII upper-case letters mapped to lower case; every other character kept. */
  function LowerChar(c: char): char {
    if 'A' <= c <= 'Z' then (c as int - 'A' as int + 'a' as int) as char else c
  }

  /** `s.toLowerCase()`, restricted to ASCII letters. */
  function Lower(s: string): (r: string)
    ensures |r| == |s|
    ensures forall i :: 0 <= i < |s| ==> r[i] == LowerChar(s[i])
  {
    seq(|s|, i requires 0 <= i < |s| => LowerChar(s[i]))
  }

  /** `sub` occurs in `s` at position `i`. */
  predicate OccursAt(s: string, sub: string, i: int) {
    0 <= i <= |s| - |sub| && s[i..i + |sub|] == sub
  }

  /** `s.includes(sub)`, written as the search the engine performs: `sub` is a
      prefix here, or it occurs in the rest. A match needs room for `sub`. */
  predicate Contains(s: string, sub: string)
    ensures Contains(s, sub) ==> |sub| <= |s|
    decreases |s|
  {
    sub <= s || (|s| > 0 && Contains(s[1..], sub))
  }

  /** A window of the tail is the window one position later in the whole. */
  lemma OccursInTail(s: string, sub: string, i: int)
    requires |s| > 0 && 0 <= i
    ensures OccursAt(s[1..], sub, i) <==> OccursAt(s, sub, i + 1)
  {
    if i + 1 + |sub| <= |s| {
      assert s[1..][i..i + |sub|] == s[i + 1..i + 1 + |sub|];
    }
  }

  /** The search agrees with "some window of `s` equals `sub`". */
  lemma {:induction false} ContainsIffOccurs(s: string, sub: string)
    ensures Contains(s, sub) <==> exists i :: OccursAt(s, sub, i)
    decreases |s|
  {
    if sub <= s {
      assert s[0..0 + |sub|] == sub;
      assert OccursAt(s, sub, 0);
    } else if |s| > 0 {
      ContainsIffOccurs(s[1..], sub);
      if Contains(s[1..], sub) {
        var i :| OccursAt(s[1..], sub, i);
        OccursInTail(s, sub, i);
      }
      if exists i :: OccursAt(s, sub, i) {
        var i :| OccursAt(s, sub, i);
        if i > 0 {
          OccursInTail(s, sub, i - 1);
        }
      }
    }
  }

  /** A window of a window is a window of the whole. */
  lemma OccursAtWithin(a: string, b: string, c: string, i: int, j: int)
    requires OccursAt(a, b, i) && OccursAt(b, c, j)
    ensures OccursAt(a, c, i + j)
  {
    forall k | 0 <= k < |c| ensures a[i + j..i + j + |c|][k] == c[k] {
      assert a[i..i + |b|][j + k] == a[i + j + k];
      assert b[j..j + |c|][k] == b[j + k];
    }
  }

  /** A window of a window of a window is a window of the whole. */
  lemma OccursAtChain(a: string, b: string, c: string, d: string, i: int, j: int, k: int)
    requires OccursAt(a, b, i) && OccursAt(b, c, j) && OccursAt(c, d, k)
    ensures OccursAt(a, d, i + j + k)
  {
    OccursAtWithin(a, b, c, i, j);
    OccursAtWithin(a, c, d, i + j, k);
  }

  /** A match inside the first part is a match inside the whole. */
  lemma {:induction false} ContainsInLeft(a: string, b: string, sub: string)
    requires Contains(a, sub)
    ensures Contains(a + b, sub)
    decreases |a|
  {
    if sub <= a {
      assert (a + b)[..|sub|] == a[..|sub|];
    } else {
      ContainsInLeft(a[1..], b, sub);
      assert (a + b)[1..] == a[1..] + b;
    }
  }

  /** A match inside the second part is a match inside the whole. */
  lemma {:induction false} ContainsInRight(a: string, b: string, sub: string)
    requires Contains(b, sub)
    ensures Contains(a + b, sub)
    decreases |a|
  {
    if |a| > 0 {
      ContainsInRight(a[1..], b, sub);
      assert (a + b)[1..] == a[1..] + b;
    } else {
      assert a + b == b;
    }
  }

  /** The first position of `c` in `s`, or -1 (where `split` cuts, and where
      the greedy brace match starts). */
  function IndexOf(s: string, c: char): (k: int)
    ensures -1 <= k < |s|
    ensures k == -1 <==> c !in s
    ensures k >= 0 ==> s[k] == c && c !in s[..k]
  {
    if |s| == 0 then -1
    else if s[0] == c then 0
    else
      var k := IndexOf(s[1..], c);
      if k == -1 then -1
      else
        assert s[..k + 1] == [s[0]] + s[1..][..k];
        k + 1
  }

  /** The last position of `c` in `s`, or -1 (where the greedy brace match
      ends). */
  function LastIndexOf(s: string, c: char): (k: int)
    ensures -1 <= k < |s|
    ensures k == -1 <==> forall j :: 0 <= j < |s| ==> s[j] != c
    ensures k >= 0 ==> s[k] == c && forall j :: k < j < |s| ==> s[j] != c
  {
    if |s| == 0 then -1
    else if s[|s| - 1] == c then |s| - 1
    else LastIndexOf(s[..|s| - 1], c)
  }

  /** `parts.join(glue)` */
  function Join(parts: seq<string>, glue: string): (r: string)
    ensures |parts| >= 1 ==> parts[0] <= r
    ensures |parts| >= 2 ==> parts[0] + glue <= r
  {
    if |parts| == 0 then ""
    else if |parts| == 1 then parts[0]
    else parts[0] + glue + Join(parts[1..], glue)
  }

  /** `s.split(sep)` for a one-character separator: the pieces between
      consecutive separators, always at least one (possibly empty) piece. */
  function Split(s: string, sep: char): (r: seq<string>)
    ensures |r| >= 1
    ensures forall k :: 0 <= k < |r| ==> sep !in r[k]
    decreases |s|
  {
    var i := IndexOf(s, sep);
    if i == -1 then [s] else [s[..i]] + Split(s[i + 1..], sep)
  }

  /** Joining a first piece in front of at least one more. */
  lemma JoinCons(first: string, rest: seq<string>, glue: string)
    requires |rest| >= 1
    ensures Join([first] + rest, glue) == first + glue + Join(rest, glue)
  {
    assert ([first] + rest)[1..] == rest;
  }

  /** Splitting loses nothing: joining the pieces with the separator gives
      back the original text. */
  lemma {:induction false} SplitJoinRoundTrip(s: string, sep: char)
    ensures Join(Split(s, sep), [sep]) == s
    decreases |s|
  {
    var i := IndexOf(s, sep);
    if i != -1 {
      var rest := Split(s[i + 1..], sep);
      SplitJoinRoundTrip(s[i + 1..], sep);
      SplitAtFirst(s, sep);
      JoinCons(s[..i], rest, [sep]);
      CutAround(s, i);
    }
  }

  /** A split with a separator present: the piece before it, then the split
      of what follows. */
  lemma SplitAtFirst(s: string, sep: char)
    requires IndexOf(s, sep) != -1
    ensures Split(s, sep) == [s[..IndexOf(s, sep)]] + Split(s[IndexOf(s, sep) + 1..], sep)
  {
  }

  /** A text is what comes before a position, the character there, and what
      comes after. */
  lemma CutAround(s: string, i: nat)
    requires i < |s|
    ensures s == s[..i] + [s[i]] + s[i + 1..]
  {
  }

  /** Text before the first separator is the first piece. */
  lemma SplitFirstPiece(a: string, sep: char, t: string)
    requires sep !in a
    ensures Split(a + [sep] + t, sep) == [a] + Split(t, sep)
  {
    var s := a + [sep] + t;
    assert s[|a|] == sep;
    assert s[..|a|] == a;
    assert forall j :: 0 <= j < |a| ==> s[j] != sep;
    assert IndexOf(s, sep) == |a|;
    assert s[|a| + 1..] == t;
  }

  /** Pieces that contain no separator are exactly what splitting their join
      gives back. */
  lemma {:induction false} JoinSplitRoundTrip(parts: seq<string>, sep: char)
    requires |parts| >= 1
    requires forall k :: 0 <= k < |parts| ==> sep !in parts[k]
    ensures Split(Join(parts, [sep]), sep) == parts
    decreases |parts|
  {
    if |parts| == 1 {
      assert IndexOf(parts[0], sep) == -1;
    } else {
      var tail := Join(parts[1..], [sep]);
      assert Join(parts, [sep]) == parts[0] + [sep] + tail;
      JoinSplitRoundTrip(parts[1..], sep);
      SplitFirstPiece(parts[0], sep, tail);
      assert parts == [parts[0]] + parts[1..];
    }
  }

  /** JavaScript's `length`: the number of UTF-16 code units, two for each
      character outside the Basic Multilingual Plane. */
  function Utf16Length(s: string): (n: nat)
    ensures |s| <= n <= 2 * |s|
    ensures n == |s| <==> forall i :: 0 <= i < |s| ==> s[i] as int <= 0xFFFF
  {
    if |s| == 0 then 0
    else
      var init := s[..|s| - 1];
      assert forall i :: 0 <= i < |init| ==> init[i] == s[i];
      Utf16Length(init) + (if s[|s| - 1] as int > 0xFFFF then 2 else 1)
  }

  /** Code units add up over concatenation. */
  lemma {:induction false} Utf16LengthConcat(a: string, b: string)
    ensures Utf16Length(a + b) == Utf16Length(a) + Utf16Length(b)
    decreases |b|
  {
    if |b| > 0 {
      var init := b[..|b| - 1];
      Utf16LengthConcat(a, init);
      assert (a + b)[..|a + b| - 1] == a + init;
    } else {
      assert a + b == a;
    }
  }

  predicate IsDigit(c: char) {
    '0' <= c <= '9'
  }

  function DigitChar(d: nat): (c: char)
    requires d < 10
    ensures IsDigit(c) && c as int - '0' as int == d
  {
    ('0' as int + d) as char
  }

  /** `${n}` for a non-negative integer: its decimal digits, no leading zero. */
  function NatToDecimal(n: nat): (r: string)
    ensures |r| >= 1
    ensures forall i :: 0 <= i < |r| ==> IsDigit(r[i])
    ensures |r| > 1 ==> r[0] != '0'
  {
    if n < 10 then [DigitChar(n)] else NatToDecimal(n / 10) + [DigitChar(n % 10)]
  }

  function DigitValue(c: char): nat
    requires IsDigit(c)
  {
    c as int - '0' as int
  }

  /** The value of a string of decimal digits. */
  function DecimalValue(s: string): nat
    requires forall i :: 0 <= i < |s| ==> IsDigit(s[i])
  {
    if |s| == 0 then 0
    else DecimalValue(s[..|s| - 1]) * 10 + DigitValue(s[|s| - 1])
  }

  /** Reading the rendered digits back gives the number. */
  lemma {:induction false} DecimalRoundTrip(n: nat)
    ensures DecimalValue(NatToDecimal(n)) == n
  {
    if n >= 10 {
      var s := NatToDecimal(n);
      DecimalRoundTrip(n / 10);
      assert s[..|s| - 1] == NatToDecimal(n / 10);
    }
  }

  /** Distinct numbers render as distinct strings. */
  lemma NatToDecimalInjective(m: nat, n: nat)
    requires m != n
    ensures NatToDecimal(m) != NatToDecimal(n)
  {
    DecimalRoundTrip(m);
    DecimalRoundTrip(n);
  }
}
