/**
 * The update checker: the three-part version comparison done by `run` and
 * the message `getUpdateMessage` picks from its outcome. The HTTP request is
 * a parameter (`Fetch`): what the first line of the response turned out to be.
 */
module Updater {
  import opened Wrappers
  import opened Strings

  /** The part of a version string that marks a development build. */
  const SnapshotMarker: string := "-SNAPSHOT"

  /** The updater's fields: the plugin's own version, then what the last check saw. */
  datatype Updater = Updater(current: string, latest: Option<string>, difference: Option<int>)

  /** What reading the update endpoint produced. */
  datatype Fetch =
    | Unreachable        // opening or reading the connection threw
    | NoLine             // `readLine` returned null
    | Line(text: string) // the first line of the response

  /** The four messages, with the versions the "outdated" one quotes. */
  datatype UpdateMessage =
    | Development(version: string)
    | RetrievalFailed
    | Outdated(current: string, latest: string)
    | UpToDate

  predicate IsSnapshot(version: string) {
    Contains(version, SnapshotMarker)
  }

  /** A fresh updater knows neither the latest version nor the difference. */
  function Create(current: string): (r: Updater)
    ensures r.current == current && r.latest.None? && r.difference.None?
  {
    Updater(current, None, None)
  }

  /**
   * `getUpdateMessage`: a development build wins over everything, then a
   * missing latest version or difference, then the sign of the difference
   * (zero and positive both count as up to date).
   */
  function Message(u: Updater): (r: UpdateMessage)
    ensures r.Development? <==> IsSnapshot(u.current)
    ensures r.Development? ==> r.version == u.current
    ensures r.RetrievalFailed? <==> !IsSnapshot(u.current) && (u.difference.None? || u.latest.None?)
    ensures r.Outdated? <==>
      !IsSnapshot(u.current) && u.difference.Some? && u.latest.Some? && u.difference.value < 0
    ensures r.Outdated? ==> r.current == u.current && Some(r.latest) == u.latest
    ensures r.UpToDate? <==>
      !IsSnapshot(u.current) && u.difference.Some? && u.latest.Some? && u.difference.value >= 0
  {
    if IsSnapshot(u.current) then Development(u.current)
    else if u.difference.None? || u.latest.None? then RetrievalFailed
    else if u.difference.value < 0 then Outdated(u.current, u.latest.value)
    else UpToDate
  }

  /** `Integer.compare`: exactly -1, 0 or 1. */
  function CompareInt(a: int, b: int): (r: int)
    ensures r == -1 || r == 0 || r == 1
    ensures r < 0 <==> a < b
    ensures r == 0 <==> a == b
  {
    if a < b then -1 else if a == b then 0 else 1
  }

  /**
   * The comparison in `run`, over the two already-split versions. Java parses
   * each component only when it is reached, so a non-numeric minor part does
   * not matter once the major parts differ. `None` is the
   * `NumberFormatException` that aborts the comparison.
   */
  function CompareParts(current: seq<string>, latest: seq<string>): (r: Option<int>)
    requires |current| == 3 && |latest| == 3
    ensures r.Some? ==> r.value == -1 || r.value == 0 || r.value == 1
    ensures r.Some? ==> ParseInt(current[0]).Some? && ParseInt(latest[0]).Some?
    ensures r == Some(0) ==> forall k :: 0 <= k < 3 ==> ParseInt(current[k]).Some? && ParseInt(current[k]) == ParseInt(latest[k])
  {
    var major0 :- ParseInt(current[0]);
    var major1 :- ParseInt(latest[0]);
    if major0 != major1 then Some(CompareInt(major0, major1))
    else
      var minor0 :- ParseInt(current[1]);
      var minor1 :- ParseInt(latest[1]);
      if minor0 != minor1 then Some(CompareInt(minor0, minor1))
      else
        var patch0 :- ParseInt(current[2]);
        var patch1 :- ParseInt(latest[2]);
        Some(CompareInt(patch0, patch1))
  }

  /** Splitting a version on its dots, as `split("\\.")` does. */
  function Parts(version: string): seq<string>
  {
    JavaSplit(version, ".")
  }

  /** A version that splits into three numeric parts, as a triple. */
  function Numeric(version: string): Option<(int, int, int)>
  {
    var parts := Parts(version);
    if |parts| != 3 then None
    else
      var major :- ParseInt(parts[0]);
      var minor :- ParseInt(parts[1]);
      var patch :- ParseInt(parts[2]);
      Some((major, minor, patch))
  }

  /** Lexicographic order on (major, minor, patch): the reference for the comparison. */
  predicate Older(a: (int, int, int), b: (int, int, int)) {
    a.0 < b.0 || (a.0 == b.0 && (a.1 < b.1 || (a.1 == b.1 && a.2 < b.2)))
  }

  /**
   * `run`: nothing for a development build; otherwise the fetched line
   * becomes the latest version even if the comparison later aborts, and the
   * difference is replaced only when both versions have exactly three parts
   * and the comparison gets through its parses.
   */
  function Run(u: Updater, fetch: Fetch): (r: Updater)
    ensures r.current == u.current
    ensures IsSnapshot(u.current) ==> r == u
    ensures !IsSnapshot(u.current) && fetch.Line? ==> r.latest == Some(fetch.text)
    ensures !IsSnapshot(u.current) && fetch.NoLine? ==> r.latest.None? && r.difference == u.difference
    ensures fetch.Unreachable? ==> r == u
    ensures r.difference != u.difference ==>
      !IsSnapshot(u.current) && fetch.Line? && |Parts(u.current)| == 3 && |Parts(fetch.text)| == 3
  {
    if IsSnapshot(u.current) then u
    else match fetch
      case Unreachable => u
      case NoLine => u.(latest := None)
      case Line(text) =>
        var current := Parts(u.current);
        var latest := Parts(text);
        if |current| == 3 && |latest| == 3 then
          match CompareParts(current, latest)
          case None => u.(latest := Some(text))
          case Some(d) => u.(latest := Some(text), difference := Some(d))
        else u.(latest := Some(text))
  }

  // ---------------------------------------------------------------------------
  // Properties
  // ---------------------------------------------------------------------------

  /**
   * Whenever both versions are fully numeric, the comparison agrees with the
   * lexicographic order: negative iff older, zero iff equal, positive iff newer.
   */
  lemma CompareMatchesOrder(current: string, latest: string)
    requires Numeric(current).Some? && Numeric(latest).Some?
    ensures |Parts(current)| == 3 && |Parts(latest)| == 3
    ensures CompareParts(Parts(current), Parts(latest)).Some?
    ensures var d := CompareParts(Parts(current), Parts(latest)).value;
      var a := Numeric(current).value;
      var b := Numeric(latest).value;
      (d == -1 <==> Older(a, b)) && (d == 0 <==> a == b) && (d == 1 <==> Older(b, a))
  {
  }

  /** Swapping the two versions negates the comparison, and aborts it in the same cases. */
  lemma CompareAntisymmetric(a: seq<string>, b: seq<string>)
    requires |a| == 3 && |b| == 3
    ensures CompareParts(a, b).Some? <==> CompareParts(b, a).Some?
    ensures CompareParts(a, b).Some? ==> CompareParts(b, a).value == -CompareParts(a, b).value
  {
  }

  /** Comparing a version with itself gives zero whenever it gets through the parses. */
  lemma CompareReflexive(a: seq<string>)
    requires |a| == 3
    ensures CompareParts(a, a).Some? ==> CompareParts(a, a).value == 0
    ensures CompareParts(a, a).Some? <==> (ParseInt(a[0]).Some? && ParseInt(a[1]).Some? && ParseInt(a[2]).Some?)
  {
  }

  /**
   * A first check from a fresh updater of a release build: with two numeric
   * versions the message is "outdated" exactly when the running version is
   * lexicographically older, and "up to date" otherwise.
   */
  lemma FirstCheckMessage(current: string, latest: string)
    requires !IsSnapshot(current)
    requires Numeric(current).Some? && Numeric(latest).Some?
    ensures Message(Run(Create(current), Line(latest))) ==
      if Older(Numeric(current).value, Numeric(latest).value) then Outdated(current, latest) else UpToDate
  {
    CompareMatchesOrder(current, latest);
  }

  /** A first check whose versions do not both split into three parts reports a failure. */
  lemma FirstCheckUnsplittable(current: string, latest: string)
    requires !IsSnapshot(current)
    requires |Parts(current)| != 3 || |Parts(latest)| != 3
    ensures Message(Run(Create(current), Line(latest))) == RetrievalFailed
  {
  }

  /** A development build never leaves the "development version" message, whatever is fetched. */
  lemma SnapshotStaysDevelopment(current: string, fetches: seq<Fetch>)
    requires IsSnapshot(current)
    ensures Message(RunAll(Create(current), fetches)) == Development(current)
  {
    SnapshotRunsNothing(Create(current), fetches);
  }

  /** Several checks in a row, as the scheduler repeats `run`. */
  function RunAll(u: Updater, fetches: seq<Fetch>): (r: Updater)
    ensures r.current == u.current
    decreases |fetches|
  {
    if |fetches| == 0 then u else RunAll(Run(u, fetches[0]), fetches[1..])
  }

  lemma {:induction false} SnapshotRunsNothing(u: Updater, fetches: seq<Fetch>)
    requires IsSnapshot(u.current)
    ensures RunAll(u, fetches) == u
    decreases |fetches|
  {
    if |fetches| > 0 {
      SnapshotRunsNothing(Run(u, fetches[0]), fetches[1..]);
    }
  }

  /** A version string built from three numbers, as releases are named. */
  function Release(major: nat, minor: nat, patch: nat): string
  {
    Decimal(major) + "." + Decimal(minor) + "." + Decimal(patch)
  }

  predicate Dotless(p: string) {
    forall j :: 0 <= j < |p| ==> p[j] != '.'
  }

  lemma DotlessClean(p: string)
    requires Dotless(p)
    ensures NoEarlySeparator(p, ".")
  {
    forall j: nat | j < |p|
      ensures !OccursAt(p + ".", ".", j)
    {
      assert (p + ".")[j] == p[j];
    }
  }

  /** Three dot-free parts, the last non-empty, split back into themselves. */
  lemma DottedParts(a: string, b: string, c: string)
    requires Dotless(a) && Dotless(b) && Dotless(c) && c != ""
    ensures Parts(a + "." + b + "." + c) == [a, b, c]
  {
    DotlessClean(a);
    DotlessClean(b);
    DotlessClean(c);
    JoinCons(b, [c], ".");
    JoinCons(a, [b, c], ".");
    assert [a] + [b, c] == [a, b, c];
    assert [b] + [c] == [b, c];
    assert Join([a, b, c], ".") == a + "." + b + "." + c;
    assert CleanPieces([a, b, c], ".");
    JavaSplitJoin([a, b, c], ".");
  }

  lemma DecimalDotless(n: nat)
    ensures Dotless(Decimal(n))
  {
    var d := Decimal(n);
    forall j | 0 <= j < |d| ensures d[j] != '.' {
      assert IsDigit(d[j]);
    }
  }

  /** A release name reads back as its three numbers. */
  lemma ReleaseNumeric(major: nat, minor: nat, patch: nat)
    requires major <= MaxInt32 && minor <= MaxInt32 && patch <= MaxInt32
    ensures Numeric(Release(major, minor, patch)) == Some((major, minor, patch))
  {
    DecimalDotless(major);
    DecimalDotless(minor);
    DecimalDotless(patch);
    DottedParts(Decimal(major), Decimal(minor), Decimal(patch));
    ParseDecimal(major);
    ParseDecimal(minor);
    ParseDecimal(patch);
  }

  /**
   * Between two releases, the first check says "outdated" exactly when the
   * running release is lexicographically older than the published one.
   */
  lemma ReleaseCheck(current: (nat, nat, nat), latest: (nat, nat, nat))
    requires current.0 <= MaxInt32 && current.1 <= MaxInt32 && current.2 <= MaxInt32
    requires latest.0 <= MaxInt32 && latest.1 <= MaxInt32 && latest.2 <= MaxInt32
    ensures var c := Release(current.0, current.1, current.2);
      var l := Release(latest.0, latest.1, latest.2);
      Message(Run(Create(c), Line(l))) == if Older(current, latest) then Outdated(c, l) else UpToDate
  {
    var c := Release(current.0, current.1, current.2);
    var l := Release(latest.0, latest.1, latest.2);
    ReleaseNumeric(current.0, current.1, current.2);
    ReleaseNumeric(latest.0, latest.1, latest.2);
    ReleaseNotSnapshot(current.0, current.1, current.2);
    FirstCheckMessage(c, l);
  }

  /** A release name is never a development version. */
  lemma ReleaseNotSnapshot(major: nat, minor: nat, patch: nat)
    ensures !IsSnapshot(Release(major, minor, patch))
  {
    var c := Release(major, minor, patch);
    if IsSnapshot(c) {
      var i: nat :| i <= |c| && OccursAt(c, SnapshotMarker, i);
      assert c[i..i + |SnapshotMarker|][0] == '-';
      ReleaseCharacters(major, minor, patch, i);
    }
  }

  /** Every character of a release name is a digit or a dot. */
  lemma ReleaseCharacters(major: nat, minor: nat, patch: nat, i: int)
    requires 0 <= i < |Release(major, minor, patch)|
    ensures var ch := Release(major, minor, patch)[i]; IsDigit(ch) || ch == '.'
  {
    var a, b, c := Decimal(major), Decimal(minor), Decimal(patch);
    var r := Release(major, minor, patch);
    assert r == a + "." + b + "." + c;
    if i < |a| {
      assert r[i] == a[i];
    } else if i == |a| {
    } else if i < |a| + 1 + |b| {
      assert r[i] == b[i - |a| - 1];
    } else if i == |a| + 1 + |b| {
    } else {
      assert r[i] == c[i - |a| - |b| - 2];
    }
  }

  /** Components compare as numbers, not as text: 1.9.0 is older than 1.10.0. */
  lemma NumericNotTextual()
    ensures Message(Run(Create("1.9.0"), Line("1.10.0"))) == Outdated("1.9.0", "1.10.0")
  {
    assert Release(1, 9, 0) == "1.9.0";
    assert Release(1, 10, 0) == "1.10.0";
    ReleaseCheck((1, 9, 0), (1, 10, 0));
  }

  /** A later component is never parsed once an earlier one differs. */
  lemma LaterPartsUnread()
    ensures CompareParts(["2", "x", "0"], ["1", "y", "0"]) == Some(1)
    ensures CompareParts(["1", "x", "0"], ["1", "y", "0"]).None?
  {
  }

  /**
   * A check whose comparison aborts still records the fetched line while
   * keeping the previous difference, so an "outdated" message goes on to
   * quote the new line although it was never compared.
   */
  lemma StaleDifference(u: Updater, text: string)
    requires !IsSnapshot(u.current) && u.latest.Some?
    requires u.difference.Some? && u.difference.value < 0
    requires |Parts(u.current)| == 3 && |Parts(text)| == 3
    requires CompareParts(Parts(u.current), Parts(text)).None?
    ensures Message(u) == Outdated(u.current, u.latest.value)
    ensures Message(Run(u, Line(text))) == Outdated(u.current, text)
  {
    AbortKeepsDifference(u, text);
  }

  /** The first check of 1.0.0 against 2.0.0 leaves a negative difference. */
  lemma FirstRelease()
    ensures Run(Create("1.0.0"), Line("2.0.0")) == Updater("1.0.0", Some("2.0.0"), Some(-1))
  {
    var c, l := Release(1, 0, 0), Release(2, 0, 0);
    assert c == "1.0.0" && l == "2.0.0";
    ReleaseNumeric(1, 0, 0);
    ReleaseNumeric(2, 0, 0);
    ReleaseNotSnapshot(1, 0, 0);
    CompareMatchesOrder(c, l);
    RunOnNumeric(c, l);
  }

  /** A check of a numeric release against a numeric answer stores the answer and the comparison. */
  lemma RunOnNumeric(current: string, latest: string)
    requires Numeric(current).Some? && Numeric(latest).Some? && !IsSnapshot(current)
    ensures CompareParts(Parts(current), Parts(latest)).Some?
    ensures Run(Create(current), Line(latest))
      == Updater(current, Some(latest), Some(CompareParts(Parts(current), Parts(latest)).value))
  {
    CompareMatchesOrder(current, latest);
  }

  /** A check whose comparison aborts records the line and nothing else. */
  lemma AbortKeepsDifference(u: Updater, text: string)
    requires !IsSnapshot(u.current)
    requires |Parts(u.current)| == 3 && |Parts(text)| == 3
    requires CompareParts(Parts(u.current), Parts(text)).None?
    ensures Run(u, Line(text)) == u.(latest := Some(text))
  {
  }
}
