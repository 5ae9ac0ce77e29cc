/**
 * The string utilities of `MessageUtils`: message ids built from
 * `String.hashCode`, the trailing-colour scanner used when wrapping lore, and
 * the prefixed colour translation.
 */
module MessageUtils {
  import opened Wrappers
  import opened Strings
  import opened Places
  import opened Externals

  // ---------------------------------------------------------------------------
  // Message ids
  // ---------------------------------------------------------------------------

  /** The 64-character alphabet of message ids. */
  const Characters: string := "qQwWeErRtTyYuUiI" + "oOpPaAsSdDfFgGhH" + "jJkKlLzZxXcCvVbB" + "nNmM0123456789-_"

  lemma CharactersSize()
    ensures |Characters| == 64
  {
  }

  /**
   * `String.hashCode`: `h = 31 * h + u` over the UTF-16 code units, in `int`
   * arithmetic, taken here one character (one or two units) at a time.
   */
  function JavaHash(s: string): (h: int)
    ensures InInt32(h)
    decreases |s|
  {
    if |s| == 0 then 0 else HashStep(JavaHash(s[..|s| - 1]), s[|s| - 1])
  }

  /** The hash after the code units of one more character. */
  function HashStep(h: int, c: char): (r: int)
    ensures InInt32(r)
    ensures InBmp(c) ==> r == ToInt32(31 * h + c as int)
  {
    var u := CodeUnits(c);
    if |u| == 1 then ToInt32(31 * h + u[0]) else ToInt32(31 * ToInt32(31 * h + u[0]) + u[1])
  }

  /** The hash loop over a string's `char[]`, one code unit at a time. */
  function UnitHash(units: seq<int>): (h: int)
    ensures InInt32(h)
    decreases |units|
  {
    if units == [] then 0 else ToInt32(31 * UnitHash(units[..|units| - 1]) + units[|units| - 1])
  }

  /** Hashing character by character is hashing the code units Java stores. */
  lemma {:induction false} JavaHashOfUnits(s: string)
    ensures JavaHash(s) == UnitHash(Utf16(s))
    decreases |s|
  {
    if s != [] {
      var init, c := s[..|s| - 1], s[|s| - 1];
      JavaHashOfUnits(init);
      var a, u := Utf16(init), CodeUnits(c);
      assert Utf16(s) == a + u;
      if |u| == 1 {
        assert (a + u)[..|a + u| - 1] == a;
      } else {
        assert (a + u)[..|a + u| - 1] == a + [u[0]];
        assert (a + [u[0]])[..|a|] == a;
      }
    }
  }

  /** A character outside the Basic Multilingual Plane is hashed as its two surrogates. */
  lemma SurrogatePairHash()
    ensures JavaHash("\U{1F600}") == 1772899
  {
    assert "\U{1F600}"[..0] == "";
    assert CodeUnits('\U{1F600}') == [0xD83D, 0xDE00];
  }

  /**
   * The digits the id is built from: the hash itself when non-negative, else
   * twice its magnitude, computed in `long` so that `Integer.MIN_VALUE` gives
   * 4294967296.
   */
  function HashDigits(h: int): (r: string)
    requires InInt32(h)
    ensures AllDigits(r) && 1 <= |r| <= 10
    ensures ValueOf(r) == if h < 0 then -2 * h else h
  {
    var n: nat := if h < 0 then -2 * h else h;
    DecimalValue(n);
    DecimalLength(n, 10, Pow10(10));
    Decimal(n)
  }

  /**
   * The pair encoding over a string of decimal digits: a pair below 64 becomes
   * one alphabet character, any other pair becomes one character per digit,
   * and a lone last digit becomes its own character.
   */
  function Encode(d: string): (r: string)
    requires AllDigits(d)
    ensures forall k :: 0 <= k < |r| ==> r[k] in Characters
    ensures (|d| + 1) / 2 <= |r| <= |d|
    decreases |d|
  {
    if |d| == 0 then ""
    else if |d| == 1 then [Characters[DigitValue(d[0])]]
    else
      var head := EncodePair(d[0], d[1]);
      var tail := Encode(d[2..]);
      assert forall k :: 0 <= k < |tail| ==> tail[k] in Characters;
      head + tail
  }

  /** One pair of digits: one character when its value is below 64, else one per digit. */
  function EncodePair(a: char, b: char): (r: string)
    requires IsDigit(a) && IsDigit(b)
    ensures 1 <= |r| <= 2 && forall k :: 0 <= k < |r| ==> r[k] in Characters
    ensures |r| == 1 <==> 10 * DigitValue(a) + DigitValue(b) < 64
  {
    var n := 10 * DigitValue(a) + DigitValue(b);
    if n < 64 then [Characters[n]] else [Characters[DigitValue(a)], Characters[DigitValue(b)]]
  }

  /** `generateId`: the place id followed by the encoded hash digits. */
  function GenerateId(p: Place, message: string): (r: string)
    ensures StartsWith(r, Id(p))
    ensures forall k :: |Id(p)| <= k < |r| ==> r[k] in Characters
    ensures |Id(p)| + 1 <= |r| <= |Id(p)| + 10
  {
    var suffix := Encode(HashDigits(JavaHash(message)));
    assert (Id(p) + suffix)[..|Id(p)|] == Id(p);
    Id(p) + suffix
  }

  /** The id depends on the message only through its hash code. */
  lemma GenerateIdDependsOnHash(p: Place, a: string, b: string)
    requires JavaHash(a) == JavaHash(b)
    ensures GenerateId(p, a) == GenerateId(p, b)
  {
  }

  /** `String.valueOf(long)`: a minus sign before the magnitude's digits. */
  function SignedDecimal(x: int): (r: string)
    ensures |r| >= 1
    ensures x >= 0 ==> r == Decimal(x)
    ensures x < 0 ==> r[0] == '-' && r[1..] == Decimal(-x)
  {
    if x < 0 then "-" + Decimal(-x) else Decimal(x)
  }

  /**
   * The hash digits as line 79 writes them: `-message.hashCode() * 2L` negates
   * in `int` before widening, so `Integer.MIN_VALUE` stays negative.
   */
  function HashDigitsAsWritten(h: int): (r: string)
    requires InInt32(h)
  {
    if h < 0 then SignedDecimal(ToInt32(-h) * 2) else Decimal(h)
  }

  /**
   * The pair loop as written, over any string: each character or pair goes
   * through `Integer.parseInt` and indexes the alphabet; `None` where that
   * throws (`NumberFormatException` or an index outside the array).
   */
  function EncodeAsWritten(s: string): (r: Option<string>)
    ensures r.Some? ==> forall k :: 0 <= k < |r.value| ==> r.value[k] in Characters
    decreases |s|
  {
    if |s| == 0 then Some("")
    else if |s| == 1 then LastAsWritten(s[0])
    else
      match HeadAsWritten(s[0], s[1])
      case None => None
      case Some(head) =>
        match EncodeAsWritten(s[2..])
        case None => None
        case Some(tail) => Some(head + tail)
  }

  /** A lone last character `s.charAt(i)` parsed on its own. */
  function LastAsWritten(c: char): Option<string> {
    var d :- ParseInt([c]);
    if 0 <= d < 64 then Some([Characters[d]]) else None
  }

  /** The two characters `s.charAt(i)`, `s.charAt(i + 1)` parsed together. */
  function HeadAsWritten(a: char, b: char): Option<string> {
    var n :- ParseInt([a, b]);
    if n < 64 then (if n < 0 then None else Some([Characters[n]])) else PairAsWritten(a, b)
  }

  /** A pair worth 64 or more: each digit indexes the alphabet on its own. */
  function PairAsWritten(a: char, b: char): Option<string> {
    var x :- ParseInt([a]);
    var y :- ParseInt([b]);
    if 0 <= x < 64 && 0 <= y < 64 then Some([Characters[x], Characters[y]]) else None
  }

  /** `generateId` as written. */
  function GenerateIdAsWritten(p: Place, message: string): (r: Option<string>)
    ensures r.Some? ==> StartsWith(r.value, Id(p))
    ensures r.Some? ==> forall k :: |Id(p)| <= k < |r.value| ==> r.value[k] in Characters
  {
    var suffix :- EncodeAsWritten(HashDigitsAsWritten(JavaHash(message)));
    Some(Id(p) + suffix)
  }

  /** On decimal digits the loop as written never throws and computes `Encode`. */
  lemma {:induction false} EncodeAsWrittenOnDigits(d: string)
    requires AllDigits(d)
    ensures EncodeAsWritten(d) == Some(Encode(d))
    decreases |d|
  {
    if |d| == 1 {
      LastOnDigits(d);
    } else if |d| >= 2 {
      EncodeAsWrittenOnDigits(d[2..]);
      PairStepOnDigits(d);
    }
  }

  lemma LastOnDigits(d: string)
    requires AllDigits(d) && |d| == 1
    ensures EncodeAsWritten(d) == Some(Encode(d))
  {
    SingleDigit(d[0]);
    assert d == [d[0]];
  }

  lemma PairStepOnDigits(d: string)
    requires AllDigits(d) && |d| >= 2
    requires EncodeAsWritten(d[2..]) == Some(Encode(d[2..]))
    ensures EncodeAsWritten(d) == Some(Encode(d))
  {
    var a, b := d[0], d[1];
    HeadOnDigits(a, b);
    var head := EncodePair(a, b);
    PairThenRest(d, head, Encode(d[2..]));
    assert Encode(d) == head + Encode(d[2..]);
  }

  /** The loop as written on two or more characters: the head pair, then the rest. */
  lemma PairThenRest(s: string, head: string, tail: string)
    requires |s| >= 2 && HeadAsWritten(s[0], s[1]) == Some(head) && EncodeAsWritten(s[2..]) == Some(tail)
    ensures EncodeAsWritten(s) == Some(head + tail)
  {
  }

  lemma HeadOnDigits(a: char, b: char)
    requires IsDigit(a) && IsDigit(b)
    ensures HeadAsWritten(a, b) == Some(EncodePair(a, b))
  {
    PairDigits(a, b);
  }

  /** Away from `Integer.MIN_VALUE` the code as written and the corrected one agree. */
  lemma GenerateIdAgrees(p: Place, message: string)
    requires JavaHash(message) != MinInt32
    ensures GenerateIdAsWritten(p, message) == Some(GenerateId(p, message))
  {
    var h := JavaHash(message);
    assert HashDigitsAsWritten(h) == HashDigits(h);
    EncodeAsWrittenOnDigits(HashDigits(h));
  }

  /** "xfjfxtf" hashes to `Integer.MIN_VALUE`. */
  lemma MinHashWitness()
    ensures JavaHash("xfjfxtf") == MinInt32
  {
    HashXfjfxt();
    assert "xfjfxtf"[..6] == "xfjfxt";
  }

  /** The hashes of the witness's prefixes, one character at a time. */
  lemma HashX()
    ensures JavaHash("x") == 120
  {
    assert "x"[..0] == "";
  }

  lemma HashXf()
    ensures JavaHash("xf") == 3822
  {
    HashX();
    assert "xf"[..1] == "x";
  }

  lemma HashXfj()
    ensures JavaHash("xfj") == 118588
  {
    HashXf();
    assert "xfj"[..2] == "xf";
  }

  lemma HashXfjf()
    ensures JavaHash("xfjf") == 3676330
  {
    HashXfj();
    assert "xfjf"[..3] == "xfj";
  }

  lemma HashXfjfx()
    ensures JavaHash("xfjfx") == 113966350
  {
    HashXfjf();
    assert "xfjfx"[..4] == "xfjf";
  }

  lemma HashXfjfxt()
    ensures JavaHash("xfjfxt") == -762010330
  {
    HashXfjfx();
    assert "xfjfxt"[..5] == "xfjfx";
  }

  /**
   * For that message the digit string is "-4294967296"; its first pair "-4"
   * parses to -4, which indexes outside the alphabet: `generateId` throws.
   */
  lemma GenerateIdAsWrittenThrows(p: Place)
    ensures GenerateIdAsWritten(p, "xfjfxtf") == None
  {
    MinHashWitness();
    DigitsOfMin();
    ThrowsOnMinusFour(HashDigitsAsWritten(MinInt32));
  }

  lemma DigitsOfMin()
    ensures |HashDigitsAsWritten(MinInt32)| >= 2
    ensures HashDigitsAsWritten(MinInt32)[0] == '-' && HashDigitsAsWritten(MinInt32)[1] == '4'
  {
    assert ToInt32(-MinInt32) == MinInt32;
    var r := SignedDecimal(-4294967296);
    assert HashDigitsAsWritten(MinInt32) == r;
    DecimalLeadingFour();
    assert r[1..] == Decimal(4294967296);
    assert r[1] == r[1..][0];
  }

  lemma ThrowsOnMinusFour(s: string)
    requires |s| >= 2 && s[0] == '-' && s[1] == '4'
    ensures EncodeAsWritten(s) == None
  {
    assert ParseInt(['-', '4']) == Some(-4) by {
      assert ['-', '4'][1..] == ['4'];
      assert ValueOf(['4']) == 4 by { assert ['4'][..0] == []; }
    }
  }

  lemma DecimalLeadingFour()
    ensures Decimal(4294967296)[0] == '4'
  {
    DecimalHead(4294967296);
    DecimalHead(429496729);
    DecimalHead(42949672);
    DecimalHead(4294967);
    DecimalHead(429496);
    DecimalHead(42949);
    DecimalHead(4294);
    DecimalHead(429);
    DecimalHead(42);
  }

  /** The leading digit of a number of two or more digits is the leading digit of its tenth. */
  lemma DecimalHead(n: nat)
    requires n >= 10
    ensures Decimal(n)[0] == Decimal(n / 10)[0]
  {
  }

  /** A one-character message of the Basic Multilingual Plane hashes to its code point. */
  lemma HashOfOne(c: char)
    requires InBmp(c)
    ensures JavaHash([c]) == c as int
  {
    assert [c][..0] == [];
  }

  /** "\U{01EA}" hashes to 490, whose digits "49", "0" encode as "Nq": an inventory-title id equals an item-name id. */
  lemma IdsCollideAcrossPlaces()
    ensures GenerateId(InventoryTitle, "\U{01EA}") == GenerateId(InventoryItemName, "")
  {
    HashOfOne('\U{01EA}');
    DigitsOf490();
    EncodeThree('4', '9', '0');
    PairFortyNine();
    AlphabetAt();
    assert HashDigits(JavaHash("")) == "0";
  }

  /** Hashes 1065 and 10065 both encode as "yrE", so two messages of one place can share an id. */
  lemma IdsCollideWithinPlace(p: Place)
    ensures GenerateId(p, "\U{0429}") == GenerateId(p, "\U{2751}")
  {
    SuffixOf1065();
    SuffixOf10065();
  }

  lemma SuffixOf1065()
    ensures Encode(HashDigits(JavaHash("\U{0429}"))) == "yrE"
  {
    HashOfOne('\U{0429}');
    DigitsOf1065();
    EncodeFour('1', '0', '6', '5');
    PairTen();
    PairSixtyFive();
  }

  lemma SuffixOf10065()
    ensures Encode(HashDigits(JavaHash("\U{2751}"))) == "yrE"
  {
    HashOfOne('\U{2751}');
    DigitsOf10065();
    EncodeFive('1', '0', '0', '6', '5');
    PairTen();
    PairSix();
    AlphabetAt();
  }

  lemma DigitsOf490()
    ensures HashDigits(490) == "490"
  {
    assert Decimal(4) == "4";
    assert Decimal(49) == "49";
  }

  lemma DigitsOf1065()
    ensures HashDigits(1065) == "1065"
  {
    assert Decimal(10) == "10";
    assert Decimal(106) == "106";
  }

  lemma DigitsOf10065()
    ensures HashDigits(10065) == "10065"
  {
    assert Decimal(10) == "10";
    assert Decimal(100) == "100";
    assert Decimal(1006) == "1006";
  }

  /** The alphabet entries the examples above use. */
  lemma AlphabetAt()
    ensures Characters[0] == 'q' && Characters[5] == 'E' && Characters[6] == 'r'
    ensures Characters[10] == 'y' && Characters[49] == 'N'
  {
  }

  lemma PairTen()
    ensures EncodePair('1', '0') == "y"
  {
    assert DigitValue('1') == 1 && DigitValue('0') == 0;
    AlphabetAt();
  }

  lemma PairSix()
    ensures EncodePair('0', '6') == "r"
  {
    AlphabetAt();
  }

  lemma PairFortyNine()
    ensures EncodePair('4', '9') == "N"
  {
    AlphabetAt();
  }

  lemma PairSixtyFive()
    ensures EncodePair('6', '5') == "rE"
  {
    AlphabetAt();
  }

  lemma EncodeThree(a: char, b: char, c: char)
    requires IsDigit(a) && IsDigit(b) && IsDigit(c)
    ensures Encode([a, b, c]) == EncodePair(a, b) + [Characters[DigitValue(c)]]
  {
    assert [a, b, c][2..] == [c];
  }

  lemma EncodeFour(a: char, b: char, c: char, d: char)
    requires IsDigit(a) && IsDigit(b) && IsDigit(c) && IsDigit(d)
    ensures Encode([a, b, c, d]) == EncodePair(a, b) + EncodePair(c, d)
  {
    assert [a, b, c, d][2..] == [c, d];
    assert [c, d][2..] == [];
  }

  lemma EncodeFive(a: char, b: char, c: char, d: char, e: char)
    requires IsDigit(a) && IsDigit(b) && IsDigit(c) && IsDigit(d) && IsDigit(e)
    ensures Encode([a, b, c, d, e]) == EncodePair(a, b) + EncodePair(c, d) + [Characters[DigitValue(e)]]
  {
    assert [a, b, c, d, e][2..] == [c, d, e];
    EncodeThree(c, d, e);
  }

  // ---------------------------------------------------------------------------
  // Trailing colour codes
  // ---------------------------------------------------------------------------

  /** `ChatColor.COLOR_CHAR`. */
  const Section: char := '\U{00A7}'

  /** The codes `ChatColor.getByChar` knows: sixteen colours, five formats and reset. */
  predicate IsCode(c: char) {
    c in "0123456789abcdefklmnor"
  }

  /** MAGIC, BOLD, STRIKETHROUGH, UNDERLINE and ITALIC: codes the scan collects and passes. */
  predicate IsFormat(c: char) {
    c in "klmno"
  }

  /** Whether `ChatColor.of(String)` exists on the server, and what it makes of a hex colour. */
  datatype HexColors = HexColors(supported: bool, lib: TextLib)

  /** What one iteration of the backward scan at index `i` does. */
  datatype Step =
    | Stop(code: string)                /* prepend `code` and break */
    | Collect(code: string, next: int)  /* prepend `code` and go on at `next` */
    | Skip(next: int)                   /* go on at `next` */

  /** A legacy code `c` found at index `j`: formats are collected, other codes end the scan. */
  function CodeStep(c: char, j: int): (r: Step)
    ensures r.Skip? ==> r.next == j - 1
    ensures r.Collect? ==> r.next == j - 2
  {
    if !IsCode(c) then Skip(j - 1)
    else if IsFormat(c) then Collect([Section, c], j - 2)
    else Stop([Section, c])
  }

  /** The six hex digits of `§x§r§r§g§g§b§b` ending at `i + 1`. */
  function HexDigitsAt(m: string, i: int): string
    requires 9 <= i < |m| - 1
  {
    [m[i - 9], m[i - 7], m[i - 5], m[i - 3], m[i - 1], m[i + 1]]
  }

  /**
   * One iteration of the loop in `getLastColors` at index `i`. A hex colour is
   * tried first when `§x` stands 12 places back; `i` has already moved 13
   * places when `ChatColor.of` throws, so the legacy code is then read with
   * the loop continuing from `i - 13`.
   */
  function Probe(m: string, i: int, hex: HexColors): (r: Step)
    requires 0 <= i < |m|
    ensures !r.Stop? ==> r.next < i
  {
    if m[i] == Section && i < |m| - 1 then
      if hex.supported && i >= 12 && m[i - 12] == Section && (m[i - 11] == 'x' || m[i - 11] == 'X') then
        match hex.lib.hexColor(HexDigitsAt(m, i))
        case Some(color) => Collect(color, i - 14)
        case None => CodeStep(m[i + 1], i - 13)
      else CodeStep(m[i + 1], i)
    else Skip(i - 1)
  }

  /** The colours collected from index `i` down, in left-to-right order. */
  function Scan(m: string, i: int, hex: HexColors): string
    requires i < |m|
    decreases i + 1
  {
    if i < 0 then ""
    else match Probe(m, i, hex)
      case Stop(code) => code
      case Collect(code, next) => Scan(m, next, hex) + code
      case Skip(next) => Scan(m, next, hex)
  }

  /** `getLastColors`: the colour codes still in effect at the end of `m`. */
  function GetLastColors(m: string, hex: HexColors): (r: string)
    ensures Section !in m ==> r == ""
  {
    assert Section !in m ==> Scan(m, |m| - 1, hex) == "" by {
      if Section !in m {
        ScanWithoutSection(m, |m| - 1, hex);
      }
    }
    Scan(m, |m| - 1, hex)
  }

  /** Without a section sign there is no code to collect. */
  lemma {:induction false} ScanWithoutSection(m: string, i: int, hex: HexColors)
    requires i < |m| && Section !in m
    ensures Scan(m, i, hex) == ""
    decreases i + 1
  {
    if i >= 0 {
      assert m[i] != Section;
      ScanWithoutSection(m, i - 1, hex);
    }
  }

  /** A legacy code starts at `p`: a section sign followed by a known code character. */
  predicate CodeAt(m: string, p: int) {
    0 <= p && p + 1 < |m| && m[p] == Section && IsCode(m[p + 1])
  }

  /** A code at `p` that ends the backward scan (a colour or reset). */
  predicate BreakAt(m: string, p: int) {
    CodeAt(m, p) && !IsFormat(m[p + 1])
  }

  /** The codes starting in `[lo, hi)`, left to right. */
  function CodesIn(m: string, lo: int, hi: int): string
    decreases hi - lo
  {
    if hi <= lo then ""
    else CodesIn(m, lo, hi - 1) + (if CodeAt(m, hi - 1) then [Section, m[hi]] else "")
  }

  /** The rightmost break at or below `i`, or 0 when there is none. */
  function LastBreak(m: string, i: int): (r: int)
    ensures 0 <= r && (i >= 0 ==> r <= i)
    ensures r > 0 ==> BreakAt(m, r)
    ensures forall p :: r < p <= i ==> !BreakAt(m, p)
    decreases i + 1
  {
    if i <= 0 then 0 else if BreakAt(m, i) then i else LastBreak(m, i - 1)
  }

  /**
   * Without hex colours, the backward scan returns exactly the codes from the
   * rightmost colour or reset code onwards, in their original order.
   */
  lemma {:induction false} ScanCollectsCodes(m: string, i: int, hex: HexColors)
    requires !hex.supported && -2 <= i < |m|
    ensures Scan(m, i, hex) == CodesIn(m, LastBreak(m, i), i + 1)
    decreases i + 2
  {
    if i >= 0 {
      if !CodeAt(m, i) {
        ScanCollectsCodes(m, i - 1, hex);
        PlainStep(m, i, hex);
      } else if IsFormat(m[i + 1]) {
        ScanCollectsCodes(m, i - 2, hex);
        FormatStep(m, i, hex);
      } else {
        BreakStep(m, i, hex);
      }
    }
  }

  lemma PlainStep(m: string, i: int, hex: HexColors)
    requires !hex.supported && 0 <= i < |m| && !CodeAt(m, i)
    ensures Scan(m, i, hex) == Scan(m, i - 1, hex)
    ensures LastBreak(m, i) == LastBreak(m, i - 1)
    ensures CodesIn(m, LastBreak(m, i), i + 1) == CodesIn(m, LastBreak(m, i - 1), i)
  {
    assert Probe(m, i, hex) == Skip(i - 1);
  }

  lemma FormatStep(m: string, i: int, hex: HexColors)
    requires !hex.supported && 0 <= i && CodeAt(m, i) && IsFormat(m[i + 1])
    ensures Scan(m, i, hex) == Scan(m, i - 2, hex) + [Section, m[i + 1]]
    ensures LastBreak(m, i) == LastBreak(m, i - 2)
    ensures CodesIn(m, LastBreak(m, i), i + 1) == CodesIn(m, LastBreak(m, i - 2), i - 1) + [Section, m[i + 1]]
  {
    assert Probe(m, i, hex) == Collect([Section, m[i + 1]], i - 2);
    assert !CodeAt(m, i - 1);
  }

  lemma BreakStep(m: string, i: int, hex: HexColors)
    requires !hex.supported && 0 <= i && CodeAt(m, i) && !IsFormat(m[i + 1])
    ensures Scan(m, i, hex) == [Section, m[i + 1]]
    ensures CodesIn(m, LastBreak(m, i), i + 1) == [Section, m[i + 1]]
  {
    assert Probe(m, i, hex) == Stop([Section, m[i + 1]]);
    if i > 0 {
      assert LastBreak(m, i) == i;
    }
  }

  /** So `getLastColors` without hex support is the codes from the last break to the end. */
  lemma LastColorsWithoutHex(m: string, hex: HexColors)
    requires !hex.supported
    ensures GetLastColors(m, hex) == CodesIn(m, LastBreak(m, |m| - 1), |m|)
  {
    ScanCollectsCodes(m, |m| - 1, hex);
  }

  /** A trailing section sign, or one before an unknown character, adds nothing; "" gives "". */
  lemma LastColorsEdgeCases(hex: HexColors)
    ensures GetLastColors("", hex) == ""
    ensures GetLastColors([Section], hex) == ""
    ensures GetLastColors([Section, 'z'], hex) == ""
  {
    assert Probe([Section, 'z'], 1, hex) == Skip(0);
    assert Probe([Section, 'z'], 0, hex) == Skip(-1);
  }

  /** `Integer.parseInt` of one digit and of two digits. */
  lemma SingleDigit(c: char)
    requires IsDigit(c)
    ensures ParseInt([c]) == Some(DigitValue(c) as int)
  {
    assert [c][..0] == [];
    assert ValueOf([c]) == DigitValue(c);
  }

  lemma PairDigits(a: char, b: char)
    requires IsDigit(a) && IsDigit(b)
    ensures ParseInt([a, b]) == Some(10 * DigitValue(a) + DigitValue(b))
    ensures ParseInt([a]) == Some(DigitValue(a) as int)
    ensures ParseInt([b]) == Some(DigitValue(b) as int)
  {
    var s := [a, b];
    assert s[..1] == [a];
    assert [a][..0] == [];
    SingleDigit(a);
    SingleDigit(b);
  }
}
