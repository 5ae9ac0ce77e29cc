/**
 * The editing session's chat input (`PlayerChatListener`): while a session
 * waits for input, every chat line of its player is swallowed and read as a
 * pattern key, a pattern value, a part of the new message, or a place name,
 * depending on the session's mode; "done" leaves the input mode.
 */
module ChatSession {
  import opened Wrappers
  import opened Strings
  import opened Versions
  import opened Places
  import opened Externals
  import opened EditData
  import opened Plugin
  import opened Replacement

  /** The line that ends every input mode. */
  const Done: string := "done"

  /** The line that removes a chat message (in the new-message mode, before any part). */
  const Remove: string := "remove"

  /** What the player is told after a line (sounds are not modelled). */
  datatype Notice =
    | Silent
    | AskValue
    | Replaced(key: string, value: string)
    | PartAdded
    | NotAPlace(text: string)
    | Unavailable(listed: seq<Place>)

  /** One line's effect on the session: the session afterwards and whether the menu is opened again. */
  datatype Reply = Reply(session: Session, reopen: bool, notice: Notice)

  /** The places offered after a rejected place name. */
  function AvailablePlaces(server: Version): (r: seq<Place>)
    ensures forall p :: p in r <==> IsChatPlace(p) && !(p == GameChat && AtOrAbove(server, WildUpdate))
  {
    if AtOrAbove(server, WildUpdate) then [SystemChat, ActionBar] else [GameChat, SystemChat, ActionBar]
  }

  /**
   * The old-value step: the first occurrence of the key in the old message
   * becomes the value with doubled backslashes, the first occurrence of the
   * escaped key in the pattern becomes the value as typed; both are
   * colour-translated when the message is not JSON.
   */
  function ReplaceOld(lib: TextLib, d: Session, value: string): (r: Session)
    ensures SameFinals(d, r) && r.fileName == d.fileName
    ensures r.mode == EditingOldPatternKey && r.oldPatternKey == ""
    ensures var m := ReplaceFirst(d.oldMessage, d.oldPatternKey, Doubled(value));
      r.oldJson == lib.isJson(m) && r.oldMessage == (if r.oldJson then m else lib.translate(m))
    ensures var p := ReplaceFirst(d.oldPattern, Escape(d.oldPatternKey), value);
      r.oldPattern == (if r.oldJson then p else lib.translate(p))
    ensures r.newMessage == d.newMessage && r.newJson == d.newJson && r.newCache == d.newCache
    ensures r.newKey == d.newKey && r.newPlace == d.newPlace
  {
    var message := ReplaceFirst(d.oldMessage, d.oldPatternKey, Doubled(value));
    var pattern := ReplaceFirst(d.oldPattern, Escape(d.oldPatternKey), value);
    var json := lib.isJson(message);
    d.(mode := EditingOldPatternKey,
       oldMessage := if json then message else lib.translate(message),
       oldPattern := if json then pattern else lib.translate(pattern),
       oldJson := json,
       oldPatternKey := "")
  }

  /** The new-value step: the first occurrence of the key becomes the value, then the JSON check. */
  function ReplaceNew(lib: TextLib, d: Session, value: string): (r: Session)
    ensures SameFinals(d, r) && r.fileName == d.fileName
    ensures r.mode == EditingNewMessageKey && r.newKey == ""
    ensures var m := ReplaceFirst(d.newMessage, d.newKey, value);
      r.newJson == lib.isJson(m) && r.newMessage == (if r.newJson then m else lib.translate(m))
    ensures r.oldMessage == d.oldMessage && r.oldPattern == d.oldPattern && r.oldJson == d.oldJson
    ensures r.newCache == d.newCache && r.newPlace == d.newPlace
  {
    var message := ReplaceFirst(d.newMessage, d.newKey, value);
    var json := lib.isJson(message);
    d.(mode := EditingNewMessageKey,
       newMessage := if json then message else lib.translate(message),
       newJson := json,
       newKey := "")
  }

  /** "done" in the new-message mode: the collected parts, if any, become the new message. */
  function CommitParts(lib: TextLib, d: Session): (r: Session)
    ensures SameFinals(d, r) && r.fileName == d.fileName && r.mode == NoMode && r.newCache == ""
    ensures r.oldMessage == d.oldMessage && r.oldPattern == d.oldPattern && r.oldJson == d.oldJson
    ensures d.newCache == "" ==> r == d.(mode := NoMode)
  {
    if d.newCache == "" then d.(mode := NoMode)
    else
      var json := lib.isJson(d.newCache);
      d.(mode := NoMode,
         newMessage := if json then d.newCache else lib.translate(d.newCache),
         newJson := json,
         newCache := "")
  }

  /** A place name typed in the place mode. */
  function ChoosePlace(server: Version, d: Session, message: string): (r: Reply)
    ensures SameFinals(d, r.session) && r.session.fileName == d.fileName
    ensures !r.reopen ==> r.session == d
    ensures r.reopen ==> r.session == d.(mode := NoMode, newPlace := r.session.newPlace)
    ensures r.reopen ==> IsChatPlace(r.session.newPlace) && Supported(r.session.newPlace, server)
    ensures r.reopen ==> !(r.session.newPlace == GameChat && AtOrAbove(server, WildUpdate))
    ensures FromName(message).None? ==> r == Reply(d, false, NotAPlace(message))
    ensures r.notice.Unavailable? ==> r.notice.listed == AvailablePlaces(server)
  {
    match FromName(message)
    case None => Reply(d, false, NotAPlace(message))
    case Some(p) =>
      match PlaceChoice(server, p)
      case None => Reply(d, false, Unavailable(AvailablePlaces(server)))
      case Some(place) => Reply(d.(mode := NoMode, newPlace := place), true, Silent)
  }

  /**
   * The place stored for a named place: none unless it is a chat place the
   * server supports; game chat becomes system chat since the Wild Update.
   */
  function PlaceChoice(server: Version, p: Place): (r: Option<Place>)
    ensures r.Some? <==> Supported(p, server) && IsChatPlace(p)
    ensures r.Some? ==> IsChatPlace(r.value) && Supported(r.value, server)
    ensures r.Some? ==> !(r.value == GameChat && AtOrAbove(server, WildUpdate))
  {
    if !Supported(p, server) || !IsChatPlace(p) then None
    else Some(if p == GameChat && AtOrAbove(server, WildUpdate) then SystemChat else p)
  }

  /** "done" in an input mode: leave it, dropping a half-entered key, and open the menu again. */
  function Finish(lib: TextLib, d: Session): (r: Session)
    ensures SameFinals(d, r) && r.fileName == d.fileName && r.mode == NoMode
    ensures r.oldMessage == d.oldMessage && r.oldPattern == d.oldPattern && r.oldJson == d.oldJson
    ensures d.mode.EditingOldPatternKey? || d.mode.EditingOldPatternValue? ==> r.oldPatternKey == ""
    ensures d.mode.EditingNewMessageKey? || d.mode.EditingNewMessageValue? ==> r.newKey == ""
    ensures !d.mode.EditingNewMessage? ==> r.newMessage == d.newMessage && r.newCache == d.newCache
  {
    match d.mode
    case EditingOldPatternKey | EditingOldPatternValue => d.(mode := NoMode, oldPatternKey := "")
    case EditingNewMessage => CommitParts(lib, d)
    case EditingNewMessageKey | EditingNewMessageValue => d.(mode := NoMode, newKey := "")
    case _ => d.(mode := NoMode)
  }

  /** A line other than "done" in the new-message mode: "remove" or one more part. */
  function AddPart(d: Session, message: string): (r: Reply)
    ensures SameFinals(d, r.session) && r.session.fileName == d.fileName
    ensures r.reopen <==> IsChatPlace(d.newPlace) && d.newCache == "" && message == Remove
    ensures r.reopen ==> r.session == d.(mode := NoMode, newMessage := "", newJson := false)
    ensures !r.reopen ==> r.session == d.(newCache := d.newCache + message)
  {
    if IsChatPlace(d.newPlace) && d.newCache == "" && message == Remove then
      Reply(d.(mode := NoMode, newMessage := "", newJson := false, newCache := ""), true, Silent)
    else Reply(d.(newCache := d.newCache + message), false, PartAdded)
  }

  /** A line other than "done" in an input mode. */
  function Input(lib: TextLib, server: Version, d: Session, message: string): (r: Reply)
    ensures SameFinals(d, r.session) && r.session.fileName == d.fileName
    ensures r.reopen ==> r.session.mode == NoMode
    ensures d.mode == EditingOldPatternKey ==> r.session == d.(oldPatternKey := message, mode := EditingOldPatternValue)
    ensures d.mode == EditingNewMessageKey ==> r.session == d.(newKey := message, mode := EditingNewMessageValue)
  {
    match d.mode
    case EditingOldPatternKey => Reply(d.(oldPatternKey := message, mode := EditingOldPatternValue), false, AskValue)
    case EditingOldPatternValue => Reply(ReplaceOld(lib, d, message), false, Replaced(d.oldPatternKey, message))
    case EditingNewMessage => AddPart(d, message)
    case EditingNewMessageKey => Reply(d.(newKey := message, mode := EditingNewMessageValue), false, AskValue)
    case EditingNewMessageValue => Reply(ReplaceNew(lib, d, message), false, Replaced(d.newKey, message))
    case EditingNewMessagePlace => ChoosePlace(server, d, message)
    case _ => Reply(d, false, Silent)
  }

  /** The listener's reading of one chat line for a session in mode `d.mode`. */
  function Step(lib: TextLib, server: Version, d: Session, message: string): (r: Reply)
    ensures SameFinals(d, r.session) && r.session.fileName == d.fileName
    ensures r.reopen ==> r.session.mode == NoMode
    ensures message == Done && d.mode != EditingFileName && d.mode != NoMode ==> r.session.mode == NoMode && r.reopen
    ensures d.mode == NoMode || d.mode == EditingFileName ==> r == Reply(d, false, Silent)
  {
    if d.mode == NoMode || d.mode == EditingFileName then Reply(d, false, Silent)
    else if message == Done then Reply(Finish(lib, d), true, Silent)
    else Input(lib, server, d, message)
  }

  /** The listener's effect on the event and the plugin. */
  datatype ChatEffect = ChatEffect(state: State, cancel: bool, reopen: bool, notice: Notice)

  /**
   * `onPlayerChat` (registered with `ignoreCancelled`): only a player whose
   * session waits for input is affected, and that player's line never reaches
   * the chat.
   */
  function OnPlayerChat(s: State, env: Env, player: nat, cancelled: bool, message: string): (r: ChatEffect)
    ensures r.cancel <==> !cancelled && player in s.sessions && s.sessions[player].mode != NoMode
    ensures !r.cancel ==> r == ChatEffect(s, false, false, Silent)
    ensures r.state.edits == s.edits && r.state.cache == s.cache && r.state.dataCache == s.dataCache
    ensures forall q :: q != player ==> GetSession(r.state, q) == GetSession(s, q)
    ensures player in s.sessions <==> player in r.state.sessions
    ensures player in s.sessions ==> SameFinals(s.sessions[player], r.state.sessions[player])
  {
    if cancelled || player !in s.sessions || s.sessions[player].mode == NoMode then ChatEffect(s, false, false, Silent)
    else
      var reply := Step(env.lib, env.server, s.sessions[player], message);
      ChatEffect(SetSession(s, player, reply.session), true, reply.reopen, reply.notice)
  }

  // ---------------------------------------------------------------------------
  // Several lines in a row
  // ---------------------------------------------------------------------------

  /** The session after the lines `lines`, in order. */
  function Feed(lib: TextLib, server: Version, d: Session, lines: seq<string>): Session
    decreases |lines|
  {
    if lines == [] then d else Feed(lib, server, Step(lib, server, d, lines[0]).session, lines[1..])
  }

  /** The parts glued together, as the cache collects them. */
  function Concat(parts: seq<string>): string {
    if parts == [] then "" else parts[0] + Concat(parts[1..])
  }

  /** A key line in the old-pattern-key mode is stored and the value is asked for. */
  lemma KeyStep(lib: TextLib, server: Version, d: Session, key: string)
    requires d.mode == EditingOldPatternKey && key != Done
    ensures Step(lib, server, d, key) == Reply(d.(oldPatternKey := key, mode := EditingOldPatternValue), false, AskValue)
  {
  }

  /** A value line in the old-pattern-value mode is the old-value step. */
  lemma ValueStep(lib: TextLib, server: Version, d: Session, value: string)
    requires d.mode == EditingOldPatternValue && value != Done
    ensures Step(lib, server, d, value) == Reply(ReplaceOld(lib, d, value), false, Replaced(d.oldPatternKey, value))
  {
  }

  /** A part line in the new-message mode is appended to the cache. */
  lemma PartStep(lib: TextLib, server: Version, d: Session, part: string)
    requires d.mode == EditingNewMessage && part != Done && part != Remove
    ensures Step(lib, server, d, part).session == d.(newCache := d.newCache + part)
  {
    assert Step(lib, server, d, part) == AddPart(d, part);
  }

  /** "done" in the new-message mode commits the collected parts. */
  lemma DoneStep(lib: TextLib, server: Version, d: Session)
    requires d.mode == EditingNewMessage
    ensures Step(lib, server, d, Done) == Reply(CommitParts(lib, d), true, Silent)
  {
    assert Finish(lib, d) == CommitParts(lib, d);
  }

  /** A line other than "done" in the place mode is a place choice. */
  lemma PlaceStep(lib: TextLib, server: Version, d: Session, message: string)
    requires d.mode == EditingNewMessagePlace && message != Done
    ensures Step(lib, server, d, message) == ChoosePlace(server, d, message)
  {
    assert Step(lib, server, d, message) == Input(lib, server, d, message);
  }

  /** No session step changes the final fields, however many lines are typed. */
  lemma {:induction false} FeedKeepsFinals(lib: TextLib, server: Version, d: Session, lines: seq<string>)
    ensures SameFinals(d, Feed(lib, server, d, lines))
    ensures Feed(lib, server, d, lines).fileName == d.fileName
    decreases |lines|
  {
    if lines != [] {
      FeedKeepsFinals(lib, server, Step(lib, server, d, lines[0]).session, lines[1..]);
    }
  }

  /**
   * Parts typed in the new-message mode (none of them "done" or "remove") are
   * collected in order and change nothing else.
   */
  lemma {:induction false} PartsAccumulate(lib: TextLib, server: Version, d: Session, parts: seq<string>)
    requires d.mode == EditingNewMessage
    requires forall k :: 0 <= k < |parts| ==> parts[k] != Done && parts[k] != Remove
    ensures Feed(lib, server, d, parts) == d.(newCache := d.newCache + Concat(parts))
    decreases |parts|
  {
    if parts == [] {
      assert d.newCache + "" == d.newCache;
    } else {
      var next := d.(newCache := d.newCache + parts[0]);
      PartStep(lib, server, d, parts[0]);
      assert Feed(lib, server, d, parts) == Feed(lib, server, next, parts[1..]);
      PartsAccumulate(lib, server, next, parts[1..]);
      assert d.newCache + parts[0] + Concat(parts[1..]) == d.newCache + Concat(parts);
    }
  }

  /**
   * Typing a message in parts and then "done" sets the new message to the
   * parts joined, colour-translated unless they form JSON, and leaves the
   * input mode.
   */
  lemma PartsThenDone(lib: TextLib, server: Version, d: Session, parts: seq<string>)
    requires d.mode == EditingNewMessage && d.newCache == ""
    requires forall k :: 0 <= k < |parts| ==> parts[k] != Done && parts[k] != Remove
    requires Concat(parts) != ""
    ensures var text := Concat(parts);
      var r := Step(lib, server, Feed(lib, server, d, parts), Done);
      r.reopen && r.session.mode == NoMode && r.session.newCache == ""
      && r.session.newJson == lib.isJson(text)
      && r.session.newMessage == (if lib.isJson(text) then text else lib.translate(text))
  {
    PartsAccumulate(lib, server, d, parts);
    var fed := Feed(lib, server, d, parts);
    assert "" + Concat(parts) == Concat(parts);
    assert fed.newCache == Concat(parts) && fed.mode == EditingNewMessage;
    DoneStep(lib, server, fed);
  }

  /** "remove" empties the new message exactly for a chat place with no part collected yet. */
  lemma RemoveOnlyForChat(lib: TextLib, server: Version, d: Session)
    requires d.mode == EditingNewMessage
    ensures var r := Step(lib, server, d, Remove);
      r.session.mode == NoMode <==> IsChatPlace(d.newPlace) && d.newCache == ""
    ensures var r := Step(lib, server, d, Remove);
      r.session.mode == NoMode ==> r.session.newMessage == "" && !r.session.newJson && r.reopen
  {
  }

  /** A key and then a value: the modes alternate and the key is used once and cleared. */
  lemma KeyThenValue(lib: TextLib, server: Version, d: Session, key: string, value: string)
    requires d.mode == EditingOldPatternKey && key != Done && value != Done
    ensures var r1 := Step(lib, server, d, key);
      var r2 := Step(lib, server, r1.session, value);
      r1.session.mode == EditingOldPatternValue && r2.session.mode == EditingOldPatternKey
      && r2.session.oldPatternKey == "" && r2.notice == Replaced(key, value)
      && r2.session.oldJson == lib.isJson(ReplaceFirst(d.oldMessage, key, Doubled(value)))
  {
    KeyStep(lib, server, d, key);
    ValueStep(lib, server, d.(oldPatternKey := key, mode := EditingOldPatternValue), value);
  }

  /**
   * A key absent from both the old message and the pattern leaves them as
   * they were, up to the colour translation of a non-JSON message.
   */
  lemma AbsentKeyKeepsOld(lib: TextLib, server: Version, d: Session, value: string)
    requires d.mode == EditingOldPatternValue && value != Done
    requires !Contains(d.oldMessage, d.oldPatternKey) && !Contains(d.oldPattern, Escape(d.oldPatternKey))
    requires lib.isJson(d.oldMessage)
    ensures var r := Step(lib, server, d, value).session;
      r.oldMessage == d.oldMessage && r.oldPattern == d.oldPattern && r.oldJson
  {
    ValueStep(lib, server, d, value);
  }

  /**
   * The old-value step at the key's first occurrences: the value, backslashes
   * doubled, takes the key's place in the old message, and the value as typed
   * takes the escaped key's place in the pattern; the rest is kept, and both
   * are colour-translated unless the new message is JSON.
   */
  lemma ValueReplacesFirst(lib: TextLib, d: Session, value: string, i: nat, j: nat, m: string, p: string)
    requires FirstOccurrence(d.oldMessage, d.oldPatternKey, i)
    requires FirstOccurrence(d.oldPattern, Escape(d.oldPatternKey), j)
    requires m == d.oldMessage[..i] + Doubled(value) + d.oldMessage[i + |d.oldPatternKey|..]
    requires p == d.oldPattern[..j] + value + d.oldPattern[j + |Escape(d.oldPatternKey)|..]
    ensures var r := ReplaceOld(lib, d, value);
      r.oldJson == lib.isJson(m)
      && r.oldMessage == (if lib.isJson(m) then m else lib.translate(m))
      && r.oldPattern == (if lib.isJson(m) then p else lib.translate(p))
  {
    ValueMessageAt(lib, d, value, i, m);
    ValuePatternAt(lib, d, value, j, p);
  }

  /** The message half of `ValueReplacesFirst`. */
  lemma ValueMessageAt(lib: TextLib, d: Session, value: string, i: nat, m: string)
    requires FirstOccurrence(d.oldMessage, d.oldPatternKey, i)
    requires m == d.oldMessage[..i] + Doubled(value) + d.oldMessage[i + |d.oldPatternKey|..]
    ensures var r := ReplaceOld(lib, d, value);
      r.oldJson == lib.isJson(m) && r.oldMessage == (if lib.isJson(m) then m else lib.translate(m))
  {
    ReplaceFirstAt(d.oldMessage, d.oldPatternKey, Doubled(value), i);
  }

  /** The pattern half of `ValueReplacesFirst`. */
  lemma ValuePatternAt(lib: TextLib, d: Session, value: string, j: nat, p: string)
    requires FirstOccurrence(d.oldPattern, Escape(d.oldPatternKey), j)
    requires p == d.oldPattern[..j] + value + d.oldPattern[j + |Escape(d.oldPatternKey)|..]
    ensures var r := ReplaceOld(lib, d, value);
      r.oldPattern == (if r.oldJson then p else lib.translate(p))
  {
    var r := ReplaceOld(lib, d, value);
    var replaced := ReplaceFirst(d.oldPattern, Escape(d.oldPatternKey), value);
    assert r.oldPattern == (if r.oldJson then replaced else lib.translate(replaced));
    assert replaced == p by {
      ReplaceFirstAt(d.oldPattern, Escape(d.oldPatternKey), value, j);
    }
  }

  /** The new-value step at the key's first occurrence: the value as typed takes the key's place. */
  lemma NewValueReplacesFirst(lib: TextLib, d: Session, value: string, i: nat)
    requires FirstOccurrence(d.newMessage, d.newKey, i)
    ensures var m := d.newMessage[..i] + value + d.newMessage[i + |d.newKey|..];
      var r := ReplaceNew(lib, d, value);
      r.newJson == lib.isJson(m) && r.newMessage == (if lib.isJson(m) then m else lib.translate(m))
  {
    ReplaceFirstAt(d.newMessage, d.newKey, value, i);
  }

  /**
   * A backslash in a value reaches the pattern as typed but the old message
   * doubled: with a key that is the whole message, the message becomes the
   * value with doubled backslashes and the pattern the value itself.
   */
  lemma ValueBackslashes(lib: TextLib, server: Version, d: Session, value: string)
    requires d.mode == EditingOldPatternValue && value != Done
    requires d.oldMessage == d.oldPatternKey && d.oldPattern == Escape(d.oldPatternKey)
    ensures var r := Step(lib, server, d, value).session;
      var json := lib.isJson(Doubled(value));
      r.oldMessage == (if json then Doubled(value) else lib.translate(Doubled(value)))
      && r.oldPattern == (if json then value else lib.translate(value))
  {
    ValueStep(lib, server, d, value);
    ReplaceOldWhole(lib, d, value);
  }

  /** A value for a key that is the whole old message replaces all of it. */
  lemma ReplaceOldWhole(lib: TextLib, d: Session, value: string)
    requires d.oldMessage == d.oldPatternKey && d.oldPattern == Escape(d.oldPatternKey)
    ensures var json := lib.isJson(Doubled(value));
      ReplaceOld(lib, d, value).oldMessage == (if json then Doubled(value) else lib.translate(Doubled(value)))
      && ReplaceOld(lib, d, value).oldPattern == (if json then value else lib.translate(value))
  {
    ReplaceWhole(d.oldMessage, Doubled(value));
    ReplaceWhole(d.oldPattern, value);
  }

  lemma ReplaceWhole(k: string, v: string)
    ensures ReplaceFirst(k, k, v) == v
  {
    assert FirstOccurrence(k, k, 0);
    assert k[..0] + v + k[|k|..] == v;
  }

  /** Every listed place, typed by its enum name, is accepted as it is. */
  lemma ListedPlacesAccepted(lib: TextLib, server: Version, d: Session, p: Place)
    requires d.mode == EditingNewMessagePlace && AtOrAbove(server, BountifulUpdate)
    requires p in AvailablePlaces(server)
    ensures var r := Step(lib, server, d, Name(p));
      r.reopen && r.session.newPlace == p
  {
    FromNameOfName(p);
    NameNotDone(p);
    PlaceStep(lib, server, d, Name(p));
    ChooseListed(server, d, Name(p), p);
  }

  lemma NameNotDone(p: Place)
    ensures Name(p) != Done
  {
    assert Name(p)[0] != Done[0];
  }

  /** A listed place, by any of its names, is accepted as it is. */
  lemma ChooseListed(server: Version, d: Session, message: string, p: Place)
    requires FromName(message) == Some(p) && AtOrAbove(server, BountifulUpdate)
    requires p in AvailablePlaces(server)
    ensures ChoosePlace(server, d, message).reopen && ChoosePlace(server, d, message).session.newPlace == p
  {
    ListedChoice(server, p);
  }

  lemma ListedChoice(server: Version, p: Place)
    requires AtOrAbove(server, BountifulUpdate) && p in AvailablePlaces(server)
    ensures PlaceChoice(server, p) == Some(p)
  {
    assert IsChatPlace(p) && !(p == GameChat && AtOrAbove(server, WildUpdate));
    assert Supported(p, server);
  }

  /** A game-chat choice on servers since the Wild Update is stored as system chat. */
  lemma GameChatBecomesSystem(lib: TextLib, server: Version, d: Session)
    requires d.mode == EditingNewMessagePlace && AtOrAbove(server, WildUpdate)
    ensures Step(lib, server, d, Name(GameChat)).session.newPlace == SystemChat
  {
    var m := Name(GameChat);
    FromNameOfName(GameChat);
    assert |m| != |Done|;
    PlaceStep(lib, server, d, m);
    WildChoice(server, d, m);
  }

  /** Any name of game chat is stored as system chat since the Wild Update. */
  lemma WildChoice(server: Version, d: Session, message: string)
    requires FromName(message) == Some(GameChat) && AtOrAbove(server, WildUpdate)
    ensures ChoosePlace(server, d, message).session.newPlace == SystemChat
  {
    WildGameChat(server);
  }

  lemma WildGameChat(server: Version)
    requires AtOrAbove(server, WildUpdate)
    ensures PlaceChoice(server, GameChat) == Some(SystemChat)
  {
    ReleasesOrdered();
    AtOrAboveTotalOrder(server, WildUpdate, BountifulUpdate);
    assert Supported(GameChat, server);
  }
}
