/**
 * The pieces of `java.lang.String`, `java.lang.Integer` and `java.util.regex`
 * the plugin uses with LITERAL arguments: occurrence search, first-occurrence
 * replacement, single-character replacement, `split` on a fixed separator,
 * `join`, ASCII case folding and decimal conversion. Regular expressions with
 * real pattern syntax are not modelled here (see module Externals).
 */
module Strings {
  import opened Wrappers

  // ---------------------------------------------------------------------------
  // Occurrences
  // ---------------------------------------------------------------------------

  /** `s` occurs in `t` starting at index `i`. */
  predicate OccursAt(t: string, s: string, i: nat) {
    i + |s| <= |t| && t[i..i + |s|] == s
  }

  predicate StartsWith(t: string, s: string) {
    |s| <= |t| && t[..|s|] == s
  }

  predicate EndsWith(t: string, s: string) {
    |s| <= |t| && t[|t| - |s|..] == s
  }

  predicate Contains(t: string, s: string) {
    exists i: nat | i <= |t| :: OccursAt(t, s, i)
  }

  /** `i` is the leftmost occurrence of `s` in `t`. */
  predicate FirstOccurrence(t: string, s: string, i: nat) {
    OccursAt(t, s, i) && forall j: nat :: j < i ==> !OccursAt(t, s, j)
  }

  /** `t.indexOf(s, from)`: the leftmost occurrence of `s` at or after `from`. */
  function IndexOfFrom(t: string, s: string, from: nat): (r: Option<nat>)
    requires from <= |t|
    ensures r.Some? ==> from <= r.value <= |t| && OccursAt(t, s, r.value)
    ensures r.Some? ==> forall j: nat :: from <= j < r.value ==> !OccursAt(t, s, j)
    ensures r.None? ==> forall j: nat :: from <= j ==> !OccursAt(t, s, j)
    decreases |t| - from
  {
    if OccursAt(t, s, from) then Some(from)
    else if from == |t| then None
    else IndexOfFrom(t, s, from + 1)
  }

  /** `t.indexOf(s)`. */
  function IndexOf(t: string, s: string): (r: Option<nat>)
    ensures r.Some? <==> Contains(t, s)
    ensures r.Some? ==> FirstOccurrence(t, s, r.value)
  {
    IndexOfFrom(t, s, 0)
  }

  /** An occurrence found in a prefix is an occurrence in the whole string, and back. */
  lemma OccursInPrefix(a: string, b: string, s: string, j: nat)
    requires j + |s| <= |a|
    ensures OccursAt(a + b, s, j) <==> OccursAt(a, s, j)
  {
    assert (a + b)[j..j + |s|] == a[j..j + |s|];
  }

  // ---------------------------------------------------------------------------
  // Literal replacement
  // ---------------------------------------------------------------------------

  /**
   * `t.replaceFirst(Pattern.quote(key), Matcher.quoteReplacement(value))`:
   * the leftmost literal occurrence of `key` becomes `value`; without one,
   * `t` is returned unchanged.
   */
  function ReplaceFirst(t: string, key: string, value: string): (r: string)
    ensures !Contains(t, key) ==> r == t
    ensures forall i: nat {:trigger FirstOccurrence(t, key, i)} :: FirstOccurrence(t, key, i) ==> r == t[..i] + value + t[i + |key|..]
  {
    match IndexOf(t, key)
    case None => t
    case Some(i) => t[..i] + value + t[i + |key|..]
  }

  /** `replaceFirst` at a known first occurrence. */
  lemma ReplaceFirstAt(t: string, key: string, value: string, i: nat)
    requires FirstOccurrence(t, key, i)
    ensures ReplaceFirst(t, key, value) == t[..i] + value + t[i + |key|..]
  {
  }

  /** `t.replace(String.valueOf(c), with)`: every `c` becomes `with`. */
  function ReplaceChar(t: string, c: char, with: string): (r: string)
    ensures c !in t ==> r == t
  {
    if |t| == 0 then ""
    else (if t[0] == c then with else [t[0]]) + ReplaceChar(t[1..], c, with)
  }

  // ---------------------------------------------------------------------------
  // split / join on a fixed, non-empty separator
  // ---------------------------------------------------------------------------

  /** The pieces of `t` between the leftmost non-overlapping occurrences of `sep`. */
  function SplitAll(t: string, sep: string): (r: seq<string>)
    requires |sep| > 0
    ensures |r| >= 1
    decreases |t|
  {
    match IndexOf(t, sep)
    case None => [t]
    case Some(i) => [t[..i]] + SplitAll(t[i + |sep|..], sep)
  }

  /** `String.join(sep, parts)`. */
  function Join(parts: seq<string>, sep: string): string
    decreases |parts|
  {
    if |parts| == 0 then ""
    else if |parts| == 1 then parts[0]
    else parts[0] + sep + Join(parts[1..], sep)
  }

  /** Drops the empty strings at the end of `parts`, as `String.split` does. */
  function StripTrailingEmpty(parts: seq<string>): (r: seq<string>)
    ensures |r| <= |parts| && r == parts[..|r|]
    ensures |r| > 0 ==> r[|r| - 1] != ""
    ensures forall k :: |r| <= k < |parts| ==> parts[k] == ""
  {
    if |parts| > 0 && parts[|parts| - 1] == "" then StripTrailingEmpty(parts[..|parts| - 1])
    else parts
  }

  /**
   * `t.split(regex)` for a regex that matches exactly the literal `sep`:
   * without any occurrence the result is `[t]` (even for the empty string);
   * otherwise the pieces, minus trailing empty ones.
   */
  function JavaSplit(t: string, sep: string): (r: seq<string>)
    requires |sep| > 0
  {
    if IndexOf(t, sep).None? then [t] else StripTrailingEmpty(SplitAll(t, sep))
  }

  lemma JoinCons(head: string, tail: seq<string>, sep: string)
    requires |tail| >= 1
    ensures Join([head] + tail, sep) == head + sep + Join(tail, sep)
  {
    assert ([head] + tail)[1..] == tail;
  }

  /** Joining the pieces back with the separator restores the string. */
  lemma {:induction false} JoinSplitAll(t: string, sep: string)
    requires |sep| > 0
    ensures Join(SplitAll(t, sep), sep) == t
    decreases |t|
  {
    var found := IndexOf(t, sep);
    if found.Some? {
      var i := found.value;
      var rest := t[i + |sep|..];
      JoinSplitAll(rest, sep);
      JoinCons(t[..i], SplitAll(rest, sep), sep);
      Reassemble(t, sep, i);
    }
  }

  lemma Cut(p: string, s: string, rest: string)
    ensures (p + s + rest)[..|p|] == p
    ensures (p + s + rest)[|p| + |s|..] == rest
  {
  }

  lemma Reassemble(t: string, s: string, i: nat)
    requires OccursAt(t, s, i)
    ensures t == t[..i] + s + t[i + |s|..]
  {
    assert t == t[..i] + t[i..i + |s|] + t[i + |s|..];
  }

  /** `sep` first occurs in `p + sep` at the seam, so `p` can be a joined piece. */
  predicate NoEarlySeparator(p: string, sep: string) {
    forall j: nat :: j < |p| ==> !OccursAt(p + sep, sep, j)
  }

  /** No piece of `parts` hides the separator. */
  predicate CleanPieces(parts: seq<string>, sep: string) {
    forall k :: 0 <= k < |parts| ==> NoEarlySeparator(parts[k], sep)
  }

  lemma IndexOfAtSeam(p: string, sep: string, rest: string)
    requires |sep| > 0 && NoEarlySeparator(p, sep)
    ensures IndexOf(p + sep + rest, sep) == Some(|p|)
  {
    var t := p + sep + rest;
    assert t == (p + sep) + rest;
    OccursInPrefix(p + sep, rest, sep, |p|);
    assert (p + sep)[|p|..|p| + |sep|] == sep;
    forall j: nat | j < |p|
      ensures !OccursAt(t, sep, j)
    {
      OccursInPrefix(p + sep, rest, sep, j);
    }
  }

  lemma SplitAllAtSeam(p: string, sep: string, rest: string)
    requires |sep| > 0 && NoEarlySeparator(p, sep)
    ensures SplitAll(p + sep + rest, sep) == [p] + SplitAll(rest, sep)
  {
    IndexOfAtSeam(p, sep, rest);
    Cut(p, sep, rest);
  }

  lemma NoSeparatorInside(p: string, sep: string)
    requires |sep| > 0 && NoEarlySeparator(p, sep)
    ensures IndexOf(p, sep).None?
  {
    forall j: nat | j <= |p|
      ensures !OccursAt(p, sep, j)
    {
      if j + |sep| <= |p| {
        OccursInPrefix(p, sep, sep, j);
      }
    }
  }

  /** Splitting what was joined gives the pieces back, when no piece hides the separator. */
  lemma {:induction false} SplitAllJoin(parts: seq<string>, sep: string)
    requires |sep| > 0 && |parts| >= 1 && CleanPieces(parts, sep)
    ensures SplitAll(Join(parts, sep), sep) == parts
    decreases |parts|
  {
    assert NoEarlySeparator(parts[0], sep);
    if |parts| == 1 {
      NoSeparatorInside(parts[0], sep);
    } else {
      var tail := parts[1..];
      JoinCons(parts[0], tail, sep);
      assert parts == [parts[0]] + tail;
      SplitAllAtSeam(parts[0], sep, Join(tail, sep));
      assert CleanPieces(tail, sep) by {
        forall k | 0 <= k < |tail| ensures NoEarlySeparator(tail[k], sep) {
          assert tail[k] == parts[k + 1];
        }
      }
      SplitAllJoin(tail, sep);
    }
  }

  /**
   * `String.split` undoes `String.join` exactly when the last piece is not
   * empty (and no piece hides the separator).
   */
  lemma JavaSplitJoin(parts: seq<string>, sep: string)
    requires |sep| > 0 && |parts| >= 1 && parts[|parts| - 1] != ""
    requires CleanPieces(parts, sep)
    ensures JavaSplit(Join(parts, sep), sep) == parts
  {
    SplitAllJoin(parts, sep);
    assert NoEarlySeparator(parts[0], sep);
    if |parts| == 1 {
      NoSeparatorInside(parts[0], sep);
    } else {
      IndexOfAtSeam(parts[0], sep, Join(parts[1..], sep));
    }
  }

  // ---------------------------------------------------------------------------
  // ASCII case folding
  // ---------------------------------------------------------------------------

  function UpperAscii(c: char): char {
    if 'a' <= c <= 'z' then (c as int - 32) as char else c
  }

  function LowerAscii(c: char): char {
    if 'A' <= c <= 'Z' then (c as int + 32) as char else c
  }

  function ToUpper(s: string): (r: string)
    ensures |r| == |s|
    ensures forall i :: 0 <= i < |s| ==> r[i] == UpperAscii(s[i])
  {
    seq(|s|, i requires 0 <= i < |s| => UpperAscii(s[i]))
  }

  function ToLower(s: string): (r: string)
    ensures |r| == |s|
    ensures forall i :: 0 <= i < |s| ==> r[i] == LowerAscii(s[i])
  {
    seq(|s|, i requires 0 <= i < |s| => LowerAscii(s[i]))
  }

  /** `a.equalsIgnoreCase(b)`, folding ASCII letters only. */
  predicate EqualsIgnoreCase(a: string, b: string) {
    ToUpper(a) == ToUpper(b)
  }

  // ---------------------------------------------------------------------------
  // UTF-16: how a Java string stores its characters
  // ---------------------------------------------------------------------------

  /** A character of the Basic Multilingual Plane takes one UTF-16 code unit. */
  predicate InBmp(c: char) {
    c as int < 0x1_0000
  }

  /** The UTF-16 code units of one character: itself, or a high and a low surrogate. */
  function CodeUnits(c: char): (r: seq<int>)
    ensures InBmp(c) ==> r == [c as int]
    ensures !InBmp(c) ==> |r| == 2 && 0xD800 <= r[0] < 0xDC00 <= r[1] < 0xE000
    ensures !InBmp(c) ==> 0x1_0000 + (r[0] - 0xD800) * 0x400 + (r[1] - 0xDC00) == c as int
  {
    if InBmp(c) then [c as int]
    else
      var v := c as int - 0x1_0000;
      [0xD800 + v / 0x400, 0xDC00 + v % 0x400]
  }

  /** The `char[]` a Java string holds for `s`; `s.length()` is its length. */
  function Utf16(s: string): (r: seq<int>)
    ensures |s| <= |r| <= 2 * |s|
    decreases |s|
  {
    if s == [] then [] else Utf16(s[..|s| - 1]) + CodeUnits(s[|s| - 1])
  }

  /** `s.length()` counts characters exactly when none lies outside the Basic Multilingual Plane. */
  lemma {:induction false} Utf16Length(s: string)
    ensures |Utf16(s)| == |s| <==> forall k :: 0 <= k < |s| ==> InBmp(s[k])
    decreases |s|
  {
    if s != [] {
      var init := s[..|s| - 1];
      Utf16Length(init);
      assert forall k :: 0 <= k < |init| ==> init[k] == s[k];
    }
  }

  // ---------------------------------------------------------------------------
  // Decimal digits, Integer.parseInt and 32-bit wrap-around
  // ---------------------------------------------------------------------------

  const MinInt32: int := -0x8000_0000
  const MaxInt32: int := 0x7fff_ffff

  predicate InInt32(v: int) {
    MinInt32 <= v <= MaxInt32
  }

  /** Java `int` arithmetic: the value modulo 2^32 in [-2^31, 2^31). */
  function ToInt32(x: int): (r: int)
    ensures InInt32(r)
    ensures InInt32(x) ==> r == x
  {
    (x - MinInt32) % 0x1_0000_0000 + MinInt32
  }

  predicate IsDigit(c: char) {
    '0' <= c <= '9'
  }

  predicate AllDigits(s: string) {
    forall i :: 0 <= i < |s| ==> IsDigit(s[i])
  }

  function DigitValue(c: char): nat
    requires IsDigit(c)
  {
    c as int - '0' as int
  }

  function DigitChar(n: nat): (c: char)
    requires n < 10
    ensures IsDigit(c) && DigitValue(c) == n
  {
    ('0' as int + n) as char
  }

  /** The number a string of decimal digits denotes. */
  function ValueOf(s: string): nat
    requires AllDigits(s)
    decreases |s|
  {
    if |s| == 0 then 0 else 10 * ValueOf(s[..|s| - 1]) + DigitValue(s[|s| - 1])
  }

  /** `String.valueOf(n)` for a non-negative `n`. */
  function Decimal(n: nat): (r: string)
    ensures |r| >= 1 && AllDigits(r)
    decreases n
  {
    if n < 10 then [DigitChar(n)] else Decimal(n / 10) + [DigitChar(n % 10)]
  }

  /** Reading the decimal digits back gives the number. */
  lemma {:induction false} DecimalValue(n: nat)
    ensures ValueOf(Decimal(n)) == n
    decreases n
  {
    if n >= 10 {
      DecimalValue(n / 10);
      var d := Decimal(n);
      assert d[..|d| - 1] == Decimal(n / 10);
    }
  }

  /** No leading zero: the first digit is '0' only for zero itself. */
  lemma {:induction false} DecimalLeadingDigit(n: nat)
    ensures (Decimal(n)[0] == '0') <==> n == 0
    ensures 1 <= n < 10 ==> Decimal(n) == [DigitChar(n)]
    ensures DigitValue(Decimal(n)[0]) <= n
    decreases n
  {
    if n >= 10 {
      DecimalLeadingDigit(n / 10);
      assert Decimal(n)[0] == Decimal(n / 10)[0];
    }
  }

  /** A number below 10^k has at most k digits. */
  lemma {:induction false} DecimalLength(n: nat, k: nat, bound: nat)
    requires bound == Pow10(k) && n < bound
    ensures |Decimal(n)| <= k || (n < 10 && k == 0)
    decreases k
  {
    if k > 0 && n >= 10 {
      DecimalLength(n / 10, k - 1, Pow10(k - 1));
    }
  }

  function Pow10(k: nat): (r: nat)
    ensures r >= 1
  {
    if k == 0 then 1 else 10 * Pow10(k - 1)
  }

  /**
   * `Integer.parseInt(s)` on ASCII digits: an optional sign followed by at
   * least one digit, within the `int` range; `None` where Java throws
   * `NumberFormatException`.
   */
  function ParseInt(s: string): (r: Option<int>)
    ensures r.Some? ==> InInt32(r.value)
    ensures r.Some? ==> |s| >= 1
  {
    if |s| == 0 then None
    else if s[0] == '-' || s[0] == '+' then
      if |s| == 1 || !AllDigits(s[1..]) then None
      else
        var m: int := ValueOf(s[1..]);
        var v := if s[0] == '-' then -m else m;
        if InInt32(v) then Some(v) else None
    else if AllDigits(s) && InInt32(ValueOf(s)) then Some(ValueOf(s))
    else None
  }

  /** `Integer.parseInt(String.valueOf(n)) == n` for every non-negative `int`. */
  lemma ParseDecimal(n: nat)
    requires n <= MaxInt32
    ensures ParseInt(Decimal(n)) == Some(n)
  {
    DecimalValue(n);
    DecimalLeadingDigit(n);
    assert Decimal(n)[0] != '-' && Decimal(n)[0] != '+';
  }
}
