/**
 * The state of one player's editing session (`MessageEditData`): the message
 * being edited on its old side (the pattern that will select it) and its new
 * side (the replacement), plus the input mode the session is in.
 */
module EditData {
  import opened Places

  /** What the plugin remembers about a message it showed, keyed by the message's id. */
  datatype MessageData = MessageData(place: Place, message: string, json: bool)

  /** What the next chat line of the editing player means. */
  datatype Mode =
    | NoMode
    | EditingFileName
    | EditingOldPatternKey
    | EditingOldPatternValue
    | EditingNewMessage
    | EditingNewMessageKey
    | EditingNewMessageValue
    | EditingNewMessagePlace

  /** `Mode.shouldInvalidateCache`, fixed per constant. */
  function ShouldInvalidateCache(m: Mode): bool {
    match m
    case NoMode => true
    case EditingFileName => false
    case EditingOldPatternKey => false
    case EditingOldPatternValue => false
    case EditingNewMessage => false
    case EditingNewMessageKey => false
    case EditingNewMessageValue => false
    case EditingNewMessagePlace => false
  }

  /** Only the idle mode asks for the menu's cached state to be dropped. */
  lemma OnlyIdleInvalidates(m: Mode)
    ensures ShouldInvalidateCache(m) <==> m == NoMode
  {
  }

  // ---------------------------------------------------------------------------
  // Escaping a message into a pattern that matches it literally
  // ---------------------------------------------------------------------------

  /** The characters of the plugin's special-regex character class. */
  const Specials: string := "/<>{}()[],.+-*?^$\\|"

  predicate IsSpecial(c: char) {
    c in Specials
  }

  /** How many characters of `s` need escaping. */
  function CountSpecials(s: string): (n: nat)
    ensures n <= |s|
  {
    if s == [] then 0 else (if IsSpecial(s[0]) then 1 else 0) + CountSpecials(s[1..])
  }

  /** The characters one character of the message becomes in the pattern. */
  function EscapeChar(c: char): string {
    if IsSpecial(c) then ['\\', c] else [c]
  }

  /**
   * `replaceAll(SPECIAL_REGEX_CHARACTERS, "\\\\$0")`: a backslash in front of
   * every special character, everything else copied.
   */
  function Escape(s: string): (r: string)
    ensures |r| == |s| + CountSpecials(s)
    ensures s == [] <==> r == []
  {
    if s == [] then [] else EscapeChar(s[0]) + Escape(s[1..])
  }

  /** Deleting the backslash in front of each special character. */
  function Unescape(r: string): string {
    if |r| >= 2 && r[0] == '\\' && IsSpecial(r[1]) then [r[1]] + Unescape(r[2..])
    else if r == [] then []
    else [r[0]] + Unescape(r[1..])
  }

  /** Deleting the inserted escapes gives back the message. */
  lemma {:induction false} UnescapeEscape(s: string)
    ensures Unescape(Escape(s)) == s
  {
    if s != [] {
      var rest := Escape(s[1..]);
      UnescapeEscape(s[1..]);
      if IsSpecial(s[0]) {
        assert Escape(s) == ['\\', s[0]] + rest;
        assert (['\\', s[0]] + rest)[2..] == rest;
      } else {
        assert Escape(s) == [s[0]] + rest;
        assert ([s[0]] + rest)[1..] == rest;
      }
    }
  }

  /** A message without special characters is its own pattern. */
  lemma {:induction false} EscapePlain(s: string)
    requires forall k :: 0 <= k < |s| ==> !IsSpecial(s[k])
    ensures Escape(s) == s
  {
    if s != [] {
      EscapePlain(s[1..]);
    }
  }

  /** Escaping distributes over concatenation, so a message can be escaped piecewise. */
  lemma {:induction false} EscapeAppend(a: string, b: string)
    ensures Escape(a + b) == Escape(a) + Escape(b)
  {
    if a != [] {
      assert (a + b)[1..] == a[1..] + b;
      EscapeAppend(a[1..], b);
    } else {
      assert a + b == b;
    }
  }

  // ---------------------------------------------------------------------------
  // The session record
  // ---------------------------------------------------------------------------

  /**
   * `MessageEditData`. The `original…` fields, the id and the old place are
   * final in the plugin; every other field has a setter.
   */
  datatype Session = Session(
    id: string,
    fileName: string,
    originalOldMessage: string,
    originalOldJson: bool,
    oldMessage: string,
    oldPattern: string,
    oldJson: bool,
    oldPatternKey: string,
    oldPlace: Place,
    originalNewMessage: string,
    originalNewJson: bool,
    newMessage: string,
    newJson: bool,
    newCache: string,
    newKey: string,
    newPlace: Place,
    mode: Mode)

  /** The full constructor: the pattern is the escaped old message; keys and cache empty; idle. */
  function NewSession(
    id: string, fileName: string,
    oldMessage: string, oldJson: bool, oldPlace: Place,
    newMessage: string, newJson: bool, newPlace: Place): (r: Session)
    ensures r.id == id && r.fileName == fileName
    ensures r.originalOldMessage == r.oldMessage == oldMessage && r.originalOldJson == r.oldJson == oldJson
    ensures r.originalNewMessage == r.newMessage == newMessage && r.originalNewJson == r.newJson == newJson
    ensures r.oldPlace == oldPlace && r.newPlace == newPlace
    ensures Unescape(r.oldPattern) == oldMessage
    ensures |r.oldPattern| == |oldMessage| + CountSpecials(oldMessage)
    ensures r.oldPatternKey == "" && r.newCache == "" && r.newKey == ""
    ensures r.mode == NoMode && ShouldInvalidateCache(r.mode)
  {
    UnescapeEscape(oldMessage);
    Session(id, fileName, oldMessage, oldJson, oldMessage, Escape(oldMessage), oldJson, "", oldPlace,
            newMessage, newJson, newMessage, newJson, "", "", newPlace, NoMode)
  }

  /** `new MessageEditData(data)`: both sides start as the shown message, the file named after the id. */
  function FromMessageData(id: string, data: MessageData): (r: Session)
    ensures r.id == id && r.fileName == id
    ensures r.oldMessage == r.newMessage == r.originalOldMessage == r.originalNewMessage == data.message
    ensures r.oldJson == r.newJson == data.json
    ensures r.oldPlace == r.newPlace == data.place
    ensures Unescape(r.oldPattern) == data.message
    ensures r.oldPatternKey == "" && r.newCache == "" && r.newKey == "" && r.mode == NoMode
  {
    NewSession(id, id, data.message, data.json, data.place, data.message, data.json, data.place)
  }

  /** The fields no setter reaches: what every session step must keep. */
  predicate SameFinals(a: Session, b: Session) {
    Finals(a) == Finals(b)
  }

  function Finals(a: Session): (string, string, bool, Place, string, bool) {
    (a.id, a.originalOldMessage, a.originalOldJson, a.oldPlace, a.originalNewMessage, a.originalNewJson)
  }
}
