/**
 * Replacement strings of `java.util.regex.Matcher`: how `replaceAll` reads a
 * replacement (backslash escapes, `$n` group references), how the plugin
 * prepares the new message of a saved edit to be such a replacement, and
 * `Matcher.quoteReplacement`.
 */
module Replacement {
  import opened Wrappers
  import opened Strings

  // ---------------------------------------------------------------------------
  // How Matcher reads a replacement string
  // ---------------------------------------------------------------------------

  /**
   * The group number after `$`: having read `num`, Java takes one more digit
   * while the number so extended is still a group of the pattern. Returns the
   * number and how many further digits it took.
   */
  function TakeDigits(s: string, num: nat, groupCount: nat): (r: (nat, nat))
    ensures r.1 <= |s|
    ensures num <= groupCount ==> r.0 <= groupCount
    ensures forall k :: 0 <= k < r.1 ==> IsDigit(s[k])
    decreases |s|
  {
    if s != [] && IsDigit(s[0]) && num * 10 + DigitValue(s[0]) <= groupCount then
      var next := TakeDigits(s[1..], num * 10 + DigitValue(s[0]), groupCount);
      (next.0, next.1 + 1)
    else (num, 0)
  }

  /**
   * `appendReplacement`'s expansion of `rep` for a match whose groups are
   * `groups` (`groups[0]` the whole match, so the pattern has `|groups| - 1`
   * groups). `None` stands for the `IllegalArgumentException` or
   * `IndexOutOfBoundsException` Java throws: a trailing backslash, a `$` not
   * followed by a digit, or a group the pattern does not have.
   */
  function Expand(rep: string, groups: seq<string>): (r: Option<string>)
    requires |groups| >= 1
    decreases |rep|
  {
    if rep == [] then Some("")
    else if rep[0] == '\\' then
      if |rep| == 1 then None
      else
        var rest :- Expand(rep[2..], groups);
        Some([rep[1]] + rest)
    else if rep[0] == '$' then
      if |rep| == 1 || !IsDigit(rep[1]) then None
      else
        var taken := TakeDigits(rep[2..], DigitValue(rep[1]), |groups| - 1);
        if taken.0 >= |groups| then None
        else
          var rest :- Expand(rep[2 + taken.1..], groups);
          Some(groups[taken.0] + rest)
    else
      var rest :- Expand(rep[1..], groups);
      Some([rep[0]] + rest)
  }

  /**
   * Whether `rep` expands without throwing for a pattern with `groupCount`
   * groups: it depends on the group count only, never on the matched text.
   */
  predicate Expandable(rep: string, groupCount: nat)
    decreases |rep|
  {
    if rep == [] then true
    else if rep[0] == '\\' then |rep| > 1 && Expandable(rep[2..], groupCount)
    else if rep[0] == '$' then
      |rep| > 1 && IsDigit(rep[1])
      && var taken := TakeDigits(rep[2..], DigitValue(rep[1]), groupCount);
         taken.0 <= groupCount && Expandable(rep[2 + taken.1..], groupCount)
    else Expandable(rep[1..], groupCount)
  }

  /** `Expand` throws exactly where the replacement is not expandable for the match's group count. */
  lemma {:induction false} ExpandFailsExactly(rep: string, groups: seq<string>)
    requires |groups| >= 1
    ensures Expand(rep, groups).Some? <==> Expandable(rep, |groups| - 1)
    decreases |rep|
  {
    if rep == [] {
    } else if rep[0] == '\\' {
      if |rep| > 1 {
        ExpandFailsExactly(rep[2..], groups);
      }
    } else if rep[0] == '$' {
      if |rep| > 1 && IsDigit(rep[1]) {
        var taken := TakeDigits(rep[2..], DigitValue(rep[1]), |groups| - 1);
        if taken.0 < |groups| {
          ExpandFailsExactly(rep[2 + taken.1..], groups);
        }
      }
    } else {
      ExpandFailsExactly(rep[1..], groups);
    }
  }

  // ---------------------------------------------------------------------------
  // Quoting: every character literal
  // ---------------------------------------------------------------------------

  /** The replacement text of one character that must come out as itself. */
  function QuoteChar(c: char): string {
    if c == '\\' || c == '$' then ['\\', c] else [c]
  }

  /** `Matcher.quoteReplacement`: a backslash in front of every backslash and dollar. */
  function Quote(m: string): (r: string)
    ensures |r| >= |m|
  {
    if m == [] then [] else QuoteChar(m[0]) + Quote(m[1..])
  }

  /** A quoted text expands to itself whatever the match. */
  lemma {:induction false} ExpandQuote(m: string, groups: seq<string>)
    requires |groups| >= 1
    ensures Expand(Quote(m), groups) == Some(m)
    decreases |m|
  {
    if m != [] {
      var rest := Quote(m[1..]);
      ExpandQuote(m[1..], groups);
      var rep := QuoteChar(m[0]) + rest;
      if m[0] == '\\' || m[0] == '$' {
        assert rep[0] == '\\' && rep[1] == m[0] && rep[2..] == rest;
      } else {
        assert rep[0] == m[0] && rep[1..] == rest;
      }
      assert [m[0]] + m[1..] == m;
    }
  }

  /** `m.replace("\\", "\\\\")`: every backslash doubled. */
  function Doubled(m: string): (r: string)
    ensures |r| >= |m|
  {
    if m == [] then [] else (if m[0] == '\\' then ['\\', '\\'] else [m[0]]) + Doubled(m[1..])
  }

  /** `Doubled` is `replace` of the backslash character. */
  lemma {:induction false} DoubledIsReplace(m: string)
    ensures Doubled(m) == ReplaceChar(m, '\\', ['\\', '\\'])
    ensures '\\' !in m ==> Doubled(m) == m
    decreases |m|
  {
    if m != [] {
      DoubledIsReplace(m[1..]);
    }
  }

  /** `replace` of one character distributes over concatenation. */
  lemma {:induction false} ReplaceCharAppend(a: string, b: string, c: char, with: string)
    ensures ReplaceChar(a + b, c, with) == ReplaceChar(a, c, with) + ReplaceChar(b, c, with)
    decreases |a|
  {
    if a != [] {
      var head := if a[0] == c then with else [a[0]];
      assert (a + b)[0] == a[0] && (a + b)[1..] == a[1..] + b;
      assert ReplaceChar(a + b, c, with) == head + ReplaceChar(a[1..] + b, c, with);
      ReplaceCharAppend(a[1..], b, c, with);
      assert ReplaceChar(a, c, with) == head + ReplaceChar(a[1..], c, with);
    } else {
      assert a + b == b;
    }
  }

  /** Doubling the backslashes, then escaping the dollars, is quoting. */
  lemma {:induction false} ReplaceTwiceIsQuote(m: string)
    ensures ReplaceChar(Doubled(m), '$', ['\\', '$']) == Quote(m)
    decreases |m|
  {
    if m != [] {
      var head := if m[0] == '\\' then ['\\', '\\'] else [m[0]];
      var doubled := Doubled(m[1..]);
      assert Doubled(m) == head + doubled;
      ReplaceCharAppend(head, doubled, '$', ['\\', '$']);
      ReplaceTwiceIsQuote(m[1..]);
      if m[0] == '\\' {
        assert ReplaceChar(head, '$', ['\\', '$']) == ['\\', '\\'];
      } else {
        assert ReplaceChar(head, '$', ['\\', '$']) == QuoteChar(m[0]);
      }
    }
  }

  // ---------------------------------------------------------------------------
  // Preparing a saved edit's replacement
  // ---------------------------------------------------------------------------

  /** `t` starts with `$k` for a group `k` of the pattern, `$0` included. */
  predicate AllowedRef(t: string, groupCount: nat) {
    exists k :: 0 <= k <= groupCount && StartsWith(t, ['$'] + Decimal(k))
  }

  /**
   * `replaceAll("(?!\\$0|\\$1|…)\\$[0-9]+", "\\\\$0")` as written: a
   * backslash in front of each `$` followed by digits that does not start a
   * reference to a group of the pattern; every other character copied.
   */
  function EscapeRefsAsWritten(t: string, groupCount: nat): (r: string)
    ensures |r| >= |t|
    ensures '$' !in t ==> r == t
    decreases |t|
  {
    if t == [] then []
    else if |t| >= 2 && t[0] == '$' && IsDigit(t[1]) && !AllowedRef(t, groupCount) then
      ['\\', '$'] + EscapeRefsAsWritten(t[1..], groupCount)
    else [t[0]] + EscapeRefsAsWritten(t[1..], groupCount)
  }

  /**
   * The new message of an edit saved from the menu, as written: backslashes
   * doubled; then, when the pattern matches the original message, the
   * foreign `$n` escaped, else every `$` escaped.
   */
  function SaveReplacementAsWritten(m: string, matches: bool, groupCount: nat): (r: string)
    ensures |r| >= |m|
    ensures !matches ==> r == Quote(m)
  {
    var doubled := Doubled(m);
    if matches then EscapeRefsAsWritten(doubled, groupCount)
    else
      ReplaceTwiceIsQuote(m);
      ReplaceChar(doubled, '$', ['\\', '$'])
  }

  /** Without a match the written code quotes, so the saved text comes out literally. */
  lemma SaveWithoutMatchIsLiteral(m: string, groupCount: nat, groups: seq<string>)
    requires |groups| >= 1
    ensures SaveReplacementAsWritten(m, false, groupCount) == Quote(m)
    ensures Expand(SaveReplacementAsWritten(m, false, groupCount), groups) == Some(m)
  {
    ReplaceTwiceIsQuote(m);
    ExpandQuote(m, groups);
  }

  /**
   * With a match, a `$` that no digit follows is left bare: the saved text
   * "5$" makes every later expansion throw.
   */
  lemma LoneDollarThrows(groups: seq<string>)
    requires |groups| >= 1
    ensures SaveReplacementAsWritten("5$", true, |groups| - 1) == "5$"
    ensures Expand("5$", groups).None?
  {
    assert EscapeRefsAsWritten("$", |groups| - 1) == "$";
    assert "5$"[1..] == "$";
  }

  /**
   * The corrected preparation with a match: backslashes doubled, a `$` left
   * bare exactly where it starts a reference to a group of the pattern, and
   * every other `$` escaped.
   */
  function KeepRefs(m: string, groupCount: nat): (r: string)
    ensures |r| >= |m|
    decreases |m|
  {
    if m == [] then []
    else if m[0] == '$' && |m| >= 2 && IsDigit(m[1]) && AllowedRef(m, groupCount) then
      ['$'] + KeepRefs(m[1..], groupCount)
    else QuoteChar(m[0]) + KeepRefs(m[1..], groupCount)
  }

  /** The corrected new message of a saved edit. */
  function SaveReplacement(m: string, matches: bool, groupCount: nat): (r: string)
    ensures !matches ==> r == Quote(m)
  {
    if matches then KeepRefs(m, groupCount) else Quote(m)
  }

  /** A run of digits passes through unchanged. */
  lemma {:induction false} KeepRefsDigits(m: string, j: nat, groupCount: nat)
    requires j <= |m| && forall k :: 0 <= k < j ==> IsDigit(m[k])
    ensures KeepRefs(m, groupCount) == m[..j] + KeepRefs(m[j..], groupCount)
    decreases j
  {
    if j > 0 {
      var x, rest := m[0], m[1..];
      var after := KeepRefs(m[j..], groupCount);
      assert KeepRefs(m, groupCount) == [x] + KeepRefs(rest, groupCount) by {
        KeepRefsCons(m, groupCount);
        assert QuoteChar(x) == [x];
      }
      assert KeepRefs(rest, groupCount) == rest[..j - 1] + after by {
        assert forall k :: 0 <= k < j - 1 ==> rest[k] == m[k + 1];
        KeepRefsDigits(rest, j - 1, groupCount);
        SplitAfterFirst(m, j);
      }
      assert [x] + rest[..j - 1] == m[..j] by {
        SplitAfterFirst(m, j);
      }
      assert [x] + (rest[..j - 1] + after) == ([x] + rest[..j - 1]) + after;
    }
  }

  /** Cutting `m` at `j` after taking its first character off. */
  lemma SplitAfterFirst(m: string, j: nat)
    requires 0 < j <= |m|
    ensures m[1..][j - 1..] == m[j..] && [m[0]] + m[1..][..j - 1] == m[..j]
  {
  }

  /** The corrected preparation at a character other than `$`: that character quoted. */
  lemma KeepRefsCons(m: string, groupCount: nat)
    requires m != [] && m[0] != '$'
    ensures KeepRefs(m, groupCount) == QuoteChar(m[0]) + KeepRefs(m[1..], groupCount)
  {
  }

  /** The written preparation at a character other than `$`: that character copied. */
  lemma EscapeRefsCons(t: string, groupCount: nat)
    requires t != [] && t[0] != '$'
    ensures EscapeRefsAsWritten(t, groupCount) == [t[0]] + EscapeRefsAsWritten(t[1..], groupCount)
  {
  }

  /** Doubling, one character at a time. */
  lemma DoubledCons(m: string)
    requires m != []
    ensures Doubled(m) == (if m[0] == '\\' then ['\\', '\\'] else [m[0]]) + Doubled(m[1..])
  {
  }

  /** Digits at the front of the prepared text are digits at the front of the message. */
  lemma {:induction false} DigitsComeFromDigits(m: string, q: nat, groupCount: nat)
    requires q <= |KeepRefs(m, groupCount)|
    requires forall p :: 0 <= p < q ==> IsDigit(KeepRefs(m, groupCount)[p])
    ensures q <= |m| && forall p :: 0 <= p < q ==> IsDigit(m[p])
    decreases q
  {
    if q > 0 {
      var r := KeepRefs(m, groupCount);
      assert r == QuoteChar(m[0]) + KeepRefs(m[1..], groupCount) || r == ['$'] + KeepRefs(m[1..], groupCount);
      assert IsDigit(r[0]);
      var tail := KeepRefs(m[1..], groupCount);
      assert r == [m[0]] + tail;
      forall p | 0 <= p < q - 1 ensures IsDigit(tail[p]) {
        assert tail[p] == r[p + 1];
      }
      DigitsComeFromDigits(m[1..], q - 1, groupCount);
      forall p | 0 <= p < q ensures IsDigit(m[p]) {
        if p > 0 { assert m[p] == m[1..][p - 1]; }
      }
    }
  }

  /** A reference the preparation keeps names a group of the pattern by its first digit. */
  lemma AllowedFirstDigit(m: string, groupCount: nat)
    requires |m| >= 2 && IsDigit(m[1]) && AllowedRef(m, groupCount)
    ensures DigitValue(m[1]) <= groupCount
  {
    var k :| 0 <= k <= groupCount && StartsWith(m, ['$'] + Decimal(k));
    DecimalLeadingDigit(k);
    assert m[1] == (['$'] + Decimal(k))[1] == Decimal(k)[0];
  }

  /** The kept reference expands, and what follows it is expanded from the rest of the message. */
  lemma KeptReference(m: string, groupCount: nat, groups: seq<string>) returns (next: nat)
    requires |groups| == groupCount + 1
    requires |m| >= 2 && m[0] == '$' && IsDigit(m[1]) && AllowedRef(m, groupCount)
    ensures 2 <= next <= |m|
    ensures var rep := ['$'] + KeepRefs(m[1..], groupCount);
      var taken := TakeDigits(rep[2..], DigitValue(rep[1]), |groups| - 1);
      rep[1] == m[1] && taken.0 < |groups| && rep[2 + taken.1..] == KeepRefs(m[next..], groupCount)
  {
    var rest := KeepRefs(m[2..], groupCount);
    KeptHead(m, groupCount);
    AllowedFirstDigit(m, groupCount);
    var taken := TakeDigits(rest, DigitValue(m[1]), groupCount);
    next := 2 + taken.1;
    RestAfterDigits(m[2..], taken.1, groupCount);
    assert m[2..][taken.1..] == m[next..];
  }

  /** After `$`, the prepared text starts with the reference's first digit, then the rest prepared. */
  lemma KeptHead(m: string, groupCount: nat)
    requires |m| >= 2 && IsDigit(m[1])
    ensures var rep := ['$'] + KeepRefs(m[1..], groupCount);
      rep[1] == m[1] && rep[2..] == KeepRefs(m[2..], groupCount)
  {
    KeepRefsCons(m[1..], groupCount);
    assert m[1..][0] == m[1] && m[1..][1..] == m[2..];
    assert QuoteChar(m[1]) == [m[1]];
  }

  /** Past a run of digits at its front, the prepared text is the rest of the message prepared. */
  lemma RestAfterDigits(m: string, j: nat, groupCount: nat)
    requires j <= |KeepRefs(m, groupCount)|
    requires forall p :: 0 <= p < j ==> IsDigit(KeepRefs(m, groupCount)[p])
    ensures j <= |m| && KeepRefs(m, groupCount)[j..] == KeepRefs(m[j..], groupCount)
  {
    DigitsComeFromDigits(m, j, groupCount);
    KeepRefsDigits(m, j, groupCount);
    assert |m[..j]| == j;
  }

  /**
   * The corrected preparation never makes `replaceAll` throw: every bare `$`
   * names a group the pattern has.
   */
  lemma {:induction false} KeepRefsExpands(m: string, groupCount: nat, groups: seq<string>)
    requires |groups| == groupCount + 1
    ensures Expand(KeepRefs(m, groupCount), groups).Some?
    decreases |m|
  {
    if m != [] {
      var rest := KeepRefs(m[1..], groupCount);
      if m[0] == '$' && |m| >= 2 && IsDigit(m[1]) && AllowedRef(m, groupCount) {
        var next := KeptReference(m, groupCount, groups);
        KeepRefsExpands(m[next..], groupCount, groups);
      } else {
        KeepRefsExpands(m[1..], groupCount, groups);
        var rep := QuoteChar(m[0]) + rest;
        if m[0] == '\\' || m[0] == '$' {
          assert rep[0] == '\\' && rep[2..] == rest;
        } else {
          assert rep[0] == m[0] && rep[1..] == rest;
        }
      }
    }
  }

  /** A message without a dollar is saved so that it comes out literally. */
  lemma {:induction false} KeepRefsLiteral(m: string, groupCount: nat)
    requires '$' !in m
    ensures KeepRefs(m, groupCount) == Quote(m)
    decreases |m|
  {
    if m != [] {
      assert m[0] != '$';
      assert '$' !in m[1..] by {
        forall k | 0 <= k < |m[1..]| ensures m[1..][k] != '$' {
          assert m[1..][k] == m[k + 1];
        }
      }
      KeepRefsLiteral(m[1..], groupCount);
    }
  }

  // ---------------------------------------------------------------------------
  // The written and the corrected preparation agree away from a lone dollar
  // ---------------------------------------------------------------------------

  /** Every `$` of `m` is followed by a digit. */
  predicate NoLoneDollar(m: string) {
    forall i :: 0 <= i < |m| && m[i] == '$' ==> i + 1 < |m| && IsDigit(m[i + 1])
  }

  /** Doubling backslashes does not disturb a leading run of digits. */
  lemma {:induction false} DoubledDigitPrefix(m: string, s: string)
    requires AllDigits(s)
    ensures StartsWith(Doubled(m), s) <==> StartsWith(m, s)
    decreases |s|
  {
    if s != [] && m != [] {
      var d := Doubled(m);
      assert d == (if m[0] == '\\' then ['\\', '\\'] else [m[0]]) + Doubled(m[1..]);
      assert AllDigits(s[1..]) by {
        forall k | 0 <= k < |s[1..]| ensures IsDigit(s[1..][k]) {
          assert s[1..][k] == s[k + 1];
        }
      }
      DoubledDigitPrefix(m[1..], s[1..]);
      assert IsDigit(s[0]);
      if m[0] == s[0] {
        assert d[0] == m[0] && d[1..] == Doubled(m[1..]);
        assert StartsWith(d, s) <==> StartsWith(d[1..], s[1..]);
        assert StartsWith(m, s) <==> StartsWith(m[1..], s[1..]);
      } else {
        assert d[0] != s[0];
      }
    }
  }

  /** One reference `$k` starts the doubled text exactly when it starts the message. */
  lemma SameReference(m: string, k: nat)
    requires m != [] && m[0] == '$'
    ensures StartsWith(Doubled(m), ['$'] + Decimal(k)) <==> StartsWith(m, ['$'] + Decimal(k))
  {
    var d, digits := Doubled(m), Decimal(k);
    DoubledCons(m);
    assert d[0] == '$' && d[1..] == Doubled(m[1..]);
    DoubledDigitPrefix(m[1..], digits);
    StartsWithCons(d, '$', digits);
    StartsWithCons(m, '$', digits);
  }

  /** A text starts with `[x] + s` when its first character is `x` and `s` follows. */
  lemma StartsWithCons(t: string, x: char, s: string)
    requires t != []
    ensures StartsWith(t, [x] + s) <==> t[0] == x && StartsWith(t[1..], s)
  {
    if StartsWith(t, [x] + s) {
      assert t[1..][..|s|] == t[..|s| + 1][1..];
    }
    if t[0] == x && StartsWith(t[1..], s) {
      assert t[..|s| + 1] == [t[0]] + t[1..][..|s|];
    }
  }

  /** A `$` starts the same group references before and after the doubling. */
  lemma SameReferences(m: string, groupCount: nat)
    requires m != [] && m[0] == '$'
    ensures AllowedRef(Doubled(m), groupCount) <==> AllowedRef(m, groupCount)
  {
    forall k ensures StartsWith(Doubled(m), ['$'] + Decimal(k)) <==> StartsWith(m, ['$'] + Decimal(k)) {
      SameReference(m, k);
    }
  }

  /** The agreement at a backslash, given it for the rest. */
  lemma AgreeAtBackslash(m: string, groupCount: nat)
    requires m != [] && m[0] == '\\'
    requires EscapeRefsAsWritten(Doubled(m[1..]), groupCount) == KeepRefs(m[1..], groupCount)
    ensures EscapeRefsAsWritten(Doubled(m), groupCount) == KeepRefs(m, groupCount)
  {
    var tail := Doubled(m[1..]);
    assert Doubled(m) == ['\\', '\\'] + tail by {
      DoubledCons(m);
    }
    EscapeTwoBackslashes(tail, groupCount);
    KeepRefsBackslash(m, groupCount);
  }

  /** The written preparation copies a doubled backslash. */
  lemma EscapeTwoBackslashes(tail: string, groupCount: nat)
    ensures EscapeRefsAsWritten(['\\', '\\'] + tail, groupCount) == ['\\', '\\'] + EscapeRefsAsWritten(tail, groupCount)
  {
    var once := ['\\'] + tail;
    var twice := ['\\', '\\'] + tail;
    assert once[0] == '\\' && once[1..] == tail;
    EscapeRefsCons(once, groupCount);
    assert twice[0] == '\\' && twice[1..] == once;
    EscapeRefsCons(twice, groupCount);
    var escaped := EscapeRefsAsWritten(tail, groupCount);
    assert ['\\'] + (['\\'] + escaped) == ['\\', '\\'] + escaped;
  }

  /** The corrected preparation doubles a backslash. */
  lemma KeepRefsBackslash(m: string, groupCount: nat)
    requires m != [] && m[0] == '\\'
    ensures KeepRefs(m, groupCount) == ['\\', '\\'] + KeepRefs(m[1..], groupCount)
  {
    KeepRefsCons(m, groupCount);
    assert QuoteChar('\\') == ['\\', '\\'];
  }

  /** The agreement at a dollar followed by a digit, given it for the rest. */
  lemma AgreeAtDollar(m: string, groupCount: nat)
    requires |m| >= 2 && m[0] == '$' && IsDigit(m[1])
    requires EscapeRefsAsWritten(Doubled(m[1..]), groupCount) == KeepRefs(m[1..], groupCount)
    ensures EscapeRefsAsWritten(Doubled(m), groupCount) == KeepRefs(m, groupCount)
  {
    var tail := Doubled(m[1..]);
    var d := Doubled(m);
    assert d == ['$'] + tail;
    assert tail == [m[1]] + Doubled(m[2..]) by {
      assert m[1..][0] == m[1] && m[1..][1..] == m[2..];
    }
    assert |d| >= 2 && IsDigit(d[1]) && d[1..] == tail;
    SameReferences(m, groupCount);
  }

  /** The agreement at any other character, given it for the rest. */
  lemma AgreeAtPlain(m: string, groupCount: nat)
    requires m != [] && m[0] != '\\' && m[0] != '$'
    requires EscapeRefsAsWritten(Doubled(m[1..]), groupCount) == KeepRefs(m[1..], groupCount)
    ensures EscapeRefsAsWritten(Doubled(m), groupCount) == KeepRefs(m, groupCount)
  {
    var tail := Doubled(m[1..]);
    assert Doubled(m) == [m[0]] + tail;
    assert ([m[0]] + tail)[1..] == tail;
  }

  /**
   * Where every dollar is followed by a digit, the written code already
   * produces the corrected replacement: the two differ only at a lone `$`.
   */
  lemma {:induction false} AsWrittenAgrees(m: string, groupCount: nat)
    requires NoLoneDollar(m)
    ensures SaveReplacementAsWritten(m, true, groupCount) == SaveReplacement(m, true, groupCount)
    decreases |m|
  {
    if m != [] {
      assert NoLoneDollar(m[1..]) by {
        forall i | 0 <= i < |m[1..]| && m[1..][i] == '$' ensures i + 1 < |m[1..]| && IsDigit(m[1..][i + 1]) {
          assert m[i + 1] == '$';
        }
      }
      AsWrittenAgrees(m[1..], groupCount);
      if m[0] == '\\' {
        AgreeAtBackslash(m, groupCount);
      } else if m[0] == '$' {
        AgreeAtDollar(m, groupCount);
      } else {
        AgreeAtPlain(m, groupCount);
      }
    }
  }
}
