/** The JavaScript string built-ins the lint-fix runner relies on, over
    `string` = `seq<char>`: `trim`, `indexOf`, `lastIndexOf`, `slice`,
    `filter(Boolean)` + `join`, the `||` fallback on strings, template
    interpolation of integers, and `toLowerCase` (ASCII only). */
module JsStrings {

  /** The code points `String.prototype.trim` removes: the ECMAScript
      WhiteSpace and LineTerminator characters. */
  predicate IsWhitespace(c: char) {
    || c == '\t' || c == '\n' || c == '\U{B}' || c == '\U{C}' || c == '\r' || c == ' '
    || c == '\U{A0}' || c == '\U{1680}' || ('\U{2000}' <= c <= '\U{200A}')
    || c == '\U{2028}' || c == '\U{2029}' || c == '\U{202F}' || c == '\U{205F}'
    || c == '\U{3000}' || c == '\U{FEFF}'
  }

  /** Every character is whitespace (the empty string included). */
  predicate IsBlank(s: string) {
    forall i :: 0 <= i < |s| ==> IsWhitespace(s[i])
  }

  /** `a` occurs in `b` as a contiguous block. */
  predicate IsInfix(a: string, b: string) {
    exists i :: 0 <= i <= |b| && OccursAt(a, b, i)
  }

  /** `a` occurs in `b` starting at position `i`. */
  predicate OccursAt(a: string, b: string, i: int) {
    0 <= i <= |b| - |a| && b[i..i + |a|] == a
  }

  lemma InfixOfItself(s: string)
    ensures IsInfix(s, s)
  {
    assert OccursAt(s, s, 0);
  }

  predicate IsPrefix(a: string, b: string) {
    |a| <= |b| && b[..|a|] == a
  }

  predicate IsSuffix(a: string, b: string) {
    |a| <= |b| && b[|b| - |a|..] == a
  }

  /** The first position at or after `i` that is not whitespace (`|s|` when
      there is none). */
  function SkipBlank(s: string, i: nat): (k: nat)
    requires i <= |s|
    ensures i <= k <= |s|
    ensures forall j :: i <= j < k ==> IsWhitespace(s[j])
    ensures k < |s| ==> !IsWhitespace(s[k])
    decreases |s| - i
  {
    if i == |s| || !IsWhitespace(s[i]) then i else SkipBlank(s, i + 1)
  }

  /** The end of the text below `e` once trailing whitespace is dropped. */
  function BackBlank(s: string, e: nat): (k: nat)
    requires e <= |s|
    ensures k <= e
    ensures forall j :: k <= j < e ==> IsWhitespace(s[j])
    ensures k > 0 ==> !IsWhitespace(s[k - 1])
  {
    if e == 0 || !IsWhitespace(s[e - 1]) then e else BackBlank(s, e - 1)
  }

  /** `String.prototype.trim`: the string without its leading and trailing
      whitespace. */
  function Trim(s: string): (r: string)
    ensures IsInfix(r, s)
    ensures r == [] || (!IsWhitespace(r[0]) && !IsWhitespace(r[|r| - 1]))
    ensures r == [] <==> IsBlank(s)
    // exactly the leading and the trailing whitespace is cut off
    ensures exists a, b :: 0 <= a <= b <= |s| && r == s[a..b] && IsBlank(s[..a]) && IsBlank(s[b..])
  {
    var a, b := SkipBlank(s, 0), BackBlank(s, |s|);
    if a < b then
      assert OccursAt(s[a..b], s, a);
      assert IsBlank(s[..a]) && IsBlank(s[b..]);
      s[a..b]
    else
      assert OccursAt([], s, 0);
      assert s[b..b] == [] && IsBlank(s[..b]) && IsBlank(s[b..]);
      []
  }

  /** A string that neither starts nor ends with whitespace is its own trim. */
  lemma TrimUnpadded(s: string)
    requires s == [] || (!IsWhitespace(s[0]) && !IsWhitespace(s[|s| - 1]))
    ensures Trim(s) == s
  {
    if s != [] {
      assert SkipBlank(s, 0) == 0 && BackBlank(s, |s|) == |s|;
    }
  }

  /** Trimming a trimmed string changes nothing. */
  lemma TrimIdempotent(s: string)
    ensures Trim(Trim(s)) == Trim(s)
  {
    TrimUnpadded(Trim(s));
  }

  /** `s.indexOf(c)`: the first position of `c`, or -1. */
  function IndexOf(s: string, c: char): (r: int)
    ensures -1 <= r < |s|
    ensures r >= 0 ==> s[r] == c
    ensures forall k :: 0 <= k < |s| && (r < 0 || k < r) ==> s[k] != c
  {
    IndexFrom(s, c, 0)
  }

  /** The search of `indexOf` from position `from` on. */
  function IndexFrom(s: string, c: char, from: nat): (r: int)
    requires from <= |s|
    ensures r == -1 || from <= r < |s|
    ensures r >= 0 ==> s[r] == c
    ensures forall k :: from <= k < |s| && (r < 0 || k < r) ==> s[k] != c
    decreases |s| - from
  {
    if from == |s| then -1
    else if s[from] == c then from
    else IndexFrom(s, c, from + 1)
  }

  /** `s.lastIndexOf(c)`: the last position of `c`, or -1. */
  function LastIndexOf(s: string, c: char): (r: int)
    ensures -1 <= r < |s|
    ensures r >= 0 ==> s[r] == c
    ensures forall k :: r < k < |s| ==> s[k] != c
  {
    LastIndexBelow(s, c, |s|)
  }

  /** The backward search of `lastIndexOf` over the positions below `upto`. */
  function LastIndexBelow(s: string, c: char, upto: nat): (r: int)
    requires upto <= |s|
    ensures -1 <= r < upto
    ensures r >= 0 ==> s[r] == c
    ensures forall k :: r < k < upto ==> s[k] != c
  {
    if upto == 0 then -1
    else if s[upto - 1] == c then upto - 1
    else LastIndexBelow(s, c, upto - 1)
  }

  /** A `slice` bound as JavaScript normalises it: negative counts from the
      end, and the result is clamped to `[0, |s|]`. */
  function SliceBound(len: nat, x: int): (b: nat)
    ensures b <= len
    ensures 0 <= x <= len ==> b == x
  {
    if x < 0 then (if len + x < 0 then 0 else len + x)
    else if x > len then len
    else x
  }

  /** `s.slice(start, end)`: empty when the normalised end is not past the
      normalised start. */
  function Slice(s: string, start: int, end: int): (r: string)
    ensures 0 <= start <= end <= |s| ==> r == s[start..end]
    ensures 0 <= end <= start <= |s| ==> r == []
  {
    var from, to := SliceBound(|s|, start), SliceBound(|s|, end);
    if from < to then s[from..to] else []
  }

  /** `a || b` on strings: the empty string is falsy. */
  function OrElse(a: string, b: string): (r: string)
    ensures a != [] ==> r == a
    ensures a == [] ==> r == b
  {
    if a != [] then a else b
  }

  /** `parts.filter(Boolean)` (or `filter(p => p.length > 0)`) on strings. */
  function FilterNonEmpty(parts: seq<string>): (r: seq<string>)
    ensures |r| <= |parts|
    ensures forall k :: 0 <= k < |r| ==> r[k] != []
    ensures forall p :: p in r <==> p in parts && p != []
    ensures (forall k :: 0 <= k < |parts| ==> parts[k] != []) ==> r == parts
  {
    if parts == [] then []
    else
      var rest := FilterNonEmpty(parts[1..]);
      assert forall p :: p in parts <==> p == parts[0] || p in parts[1..];
      if parts[0] != [] then [parts[0]] + rest else rest
  }

  /** The filter works part by part, in order: it distributes over
      concatenation, and `FilterNonEmptyOne` says what it does to one part. */
  lemma {:induction false} FilterNonEmptyParts(a: seq<string>, b: seq<string>)
    ensures FilterNonEmpty(a + b) == FilterNonEmpty(a) + FilterNonEmpty(b)
  {
    if a != [] {
      assert (a + b)[1..] == a[1..] + b;
      FilterNonEmptyParts(a[1..], b);
    } else {
      assert a + b == b;
    }
  }

  /** A single part is kept exactly when it is non-empty. */
  lemma FilterNonEmptyOne(p: string)
    ensures FilterNonEmpty([p]) == if p == [] then [] else [p]
  {
    assert [p][1..] == [];
  }

  /** `parts.join(sep)`. */
  function Join(parts: seq<string>, sep: string): string
  {
    if parts == [] then []
    else if |parts| == 1 then parts[0]
    else parts[0] + sep + Join(parts[1..], sep)
  }

  /** Joining non-empty parts gives the empty string exactly when there are
      no parts. */
  lemma {:induction false} JoinEmptyIff(parts: seq<string>, sep: string)
    requires forall k :: 0 <= k < |parts| ==> parts[k] != []
    ensures Join(parts, sep) == [] <==> parts == []
  {
    if |parts| > 1 {
      assert |Join(parts, sep)| >= |parts[0]|;
    }
  }

  /** Joining two non-empty runs of parts: the runs joined, with one
      separator between them. */
  lemma {:induction false} JoinConcat(a: seq<string>, b: seq<string>, sep: string)
    requires a != [] && b != []
    ensures Join(a + b, sep) == Join(a, sep) + sep + Join(b, sep)
  {
    if |a| == 1 {
      assert (a + b)[1..] == b;
    } else {
      assert (a + b)[1..] == a[1..] + b;
      JoinConcat(a[1..], b, sep);
    }
  }

  /** Every part appears, verbatim, in the joined string. */
  lemma {:induction false} JoinContainsParts(parts: seq<string>, sep: string, k: nat)
    requires k < |parts|
    ensures IsInfix(parts[k], Join(parts, sep))
  {
    var j := Join(parts, sep);
    if |parts| == 1 || k == 0 {
      assert j[0..|parts[0]|] == parts[0];
      assert OccursAt(parts[k], j, 0);
    } else {
      JoinContainsParts(parts[1..], sep, k - 1);
      var rest := Join(parts[1..], sep);
      assert parts[1..][k - 1] == parts[k];
      var i :| 0 <= i <= |rest| && OccursAt(parts[k], rest, i);
      var head := parts[0] + sep;
      assert j == head + rest;
      SliceAfterHead(head, rest, i, |parts[k]|);
      assert OccursAt(parts[k], j, |head| + i);
    }
  }

  /** A slice of `b` inside `a + b`. */
  lemma SliceAfterHead(a: string, b: string, i: nat, n: nat)
    requires i + n <= |b|
    ensures (a + b)[|a| + i..|a| + i + n] == b[i..i + n]
  {
    var c := a + b;
    assert forall m :: |a| <= m < |c| ==> c[m] == b[m - |a|];
  }

  /** The joined string begins with the first part and ends with the last. */
  lemma {:induction false} JoinEnds(parts: seq<string>, sep: string)
    requires parts != []
    ensures IsPrefix(parts[0], Join(parts, sep))
    ensures IsSuffix(parts[|parts| - 1], Join(parts, sep))
  {
    if |parts| > 1 {
      JoinEnds(parts[1..], sep);
      var rest := Join(parts[1..], sep);
      var j := Join(parts, sep);
      assert j == parts[0] + sep + rest;
      assert j[|j| - |rest|..] == rest;
    }
  }

  /** ASCII lower-casing of one character. */
  function LowerChar(c: char): char {
    if 'A' <= c <= 'Z' then (c as int + 32) as char else c
  }

  /** `s.toLowerCase()`, restricted to ASCII letters. */
  function ToLower(s: string): (r: string)
    ensures |r| == |s|
    ensures forall i :: 0 <= i < |s| ==> r[i] == LowerChar(s[i])
  {
    seq(|s|, i requires 0 <= i < |s| => LowerChar(s[i]))
  }

  function DigitChar(d: nat): (c: char)
    requires d < 10
    ensures '0' <= c <= '9'
  {
    ('0' as int + d) as char
  }

  function DigitValue(c: char): int {
    c as int - '0' as int
  }

  /** Decimal digits of a natural number, as `${n}` prints it. */
  function NatToString(n: nat): (r: string)
    ensures |r| >= 1
    ensures forall i :: 0 <= i < |r| ==> '0' <= r[i] <= '9'
    ensures r[0] == '0' ==> n == 0
    decreases n
  {
    if n < 10 then [DigitChar(n)] else NatToString(n / 10) + [DigitChar(n % 10)]
  }

  /** `${n}` for an integer: a minus sign before the digits of a negative. */
  function IntToString(n: int): (r: string)
    ensures |r| >= 1
    // a leading minus sign exactly for a negative number, then only digits
    ensures r[0] == '-' <==> n < 0
    ensures n >= 0 ==> '0' <= r[0] <= '9'
    ensures forall i :: 1 <= i < |r| ==> '0' <= r[i] <= '9'
    // no leading zero, except for zero itself
    ensures var d := if n < 0 then 1 else 0; d < |r| && (r[d] == '0' ==> n == 0)
  {
    if n < 0 then "-" + NatToString(-n) else NatToString(n)
  }

  /** The number a string of decimal digits denotes. */
  function DecimalValue(s: string): int {
    if s == [] then 0 else DecimalValue(s[..|s| - 1]) * 10 + DigitValue(s[|s| - 1])
  }

  /** The integer an optionally signed decimal numeral denotes. */
  function IntegerValue(s: string): int {
    if |s| > 0 && s[0] == '-' then -DecimalValue(s[1..]) else DecimalValue(s)
  }

  lemma {:induction false} NatToStringValue(n: nat)
    ensures DecimalValue(NatToString(n)) == n
    decreases n
  {
    if n >= 10 {
      NatToStringValue(n / 10);
      var s := NatToString(n);
      assert s[..|s| - 1] == NatToString(n / 10);
    }
  }

  /** The text of an integer denotes that integer again: the code and the
      number printed in a message are one and the same. */
  lemma IntToStringValue(n: int)
    ensures IntegerValue(IntToString(n)) == n
  {
    if n < 0 {
      NatToStringValue(-n);
      assert IntToString(n)[1..] == NatToString(-n);
    } else {
      NatToStringValue(n);
    }
  }
}
