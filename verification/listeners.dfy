/**
 * The packet listeners that rewrite one text per packet: the common listener
 * (kick, disconnect, boss bar, inventory title, entity name and the other
 * single-text places), its boss-bar filter, the scoreboard-title listener and
 * the chat listener with its cancel-on-empty, place switching and click
 * decoration. A packet is abstracted to the fields the listener reads; the
 * text field is `None` where `getMessage` returns `null`.
 */
module Listeners {
  import opened Wrappers
  import opened Versions
  import opened Places
  import opened Externals
  import opened Edits
  import opened EditData
  import opened Plugin
  import opened Rewrite
  import opened Replacement
  import MessageUtils

  /** A text written into the packet with `setMessage(packet, text, json)`. */
  datatype Written = Written(text: string, json: bool)

  /** The chat-type field written into a chat packet whose place changed. */
  datatype TypeWrite = NoTypeWrite | ByteWrite(b: int) | EnumWrite(t: ChatType)

  /**
   * What handling one event did: the plugin state afterwards, whether the
   * event was cancelled, what was written into the packet copy, and whether
   * the copy replaced the event's packet (`event.setPacket`).
   */
  datatype Effect = Effect(state: State, cancel: bool, write: Option<Written>, typeWrite: TypeWrite, setPacket: bool)

  function Untouched(s: State): Effect {
    Effect(s, false, None, NoTypeWrite, false)
  }

  /** Listener steps never touch the edit list, the sessions or the analyzing flags. */
  predicate KeepsConfig(s: State, t: State) {
    t.edits == s.edits && t.sessions == s.sessions && t.analyzing == s.analyzing
  }

  // ---------------------------------------------------------------------------
  // The common listener
  // ---------------------------------------------------------------------------

  /**
   * The part of `onPacketSending` after the guards: resolve, cache a fresh
   * result, record the shown message under its id, and write the text only
   * when it changed.
   */
  function Process(s: State, env: Env, viewer: Viewer, place: Place, text: string, withMvdw: bool): (r: Effect)
    ensures KeepsConfig(s, r.state) && !r.cancel && r.typeWrite == NoTypeWrite
    ensures r.setPacket <==> r.write.Some?
    ensures Resolve(s, env, viewer, place, text, withMvdw).Threw? ==> r == Untouched(s)
    ensures r.write.Some? <==>
      !Resolve(s, env, viewer, place, text, withMvdw).Threw? && After(Resolve(s, env, viewer, place, text, withMvdw), text) != text
  {
    var res := Resolve(s, env, viewer, place, text, withMvdw);
    if res.Threw? then Untouched(s)
    else
      var after := After(res, text);
      var json := env.lib.isJson(after);
      var t := RememberShown(Remember(s, text, res), place, after, json);
      if after != text then Effect(t, false, Some(Written(after, json)), NoTypeWrite, true)
      else Effect(t, false, None, NoTypeWrite, false)
  }

  /** `CommonPacketListener.onPacketSending`; `process` is the `shouldProcess` hook's answer. */
  function OnCommon(s: State, env: Env, viewer: Viewer, place: Place, cancelled: bool, process: bool, text: Option<string>): (r: Effect)
    ensures cancelled || !process || text.None? ==> r == Untouched(s)
    ensures KeepsConfig(s, r.state) && !r.cancel && r.typeWrite == NoTypeWrite
    ensures r.setPacket <==> r.write.Some?
  {
    if cancelled || !process || text.None? then Untouched(s)
    else Process(s, env, viewer, place, text.value, false)
  }

  /** With no cache entry and no firing edit, the packet keeps its text and the rewrite cache is unchanged. */
  lemma CommonNoEdit(s: State, env: Env, viewer: Viewer, place: Place, text: string)
    requires text !in s.cache
    requires forall j :: 0 <= j < |s.edits| ==> !Fires(env.rx, s.edits[j], place, text)
    ensures var r := OnCommon(s, env, viewer, place, false, true, Some(text));
      r.write.None? && !r.setPacket && r.state.cache == s.cache
  {
  }

  /**
   * A first firing edit whose after-text `replaceAll` rejects makes the
   * listener throw: nothing is cached and the packet goes out as it was.
   */
  lemma CommonThrowLeavesPacket(s: State, env: Env, viewer: Viewer, place: Place, text: string, i: nat)
    requires ThrowsOnlyOnBadReplacement(env.rx)
    requires text !in s.cache && FirstToFire(env.rx, s.edits, place, text, i)
    requires s.edits[i].after.None? || !Expandable(s.edits[i].after.value, env.rx.groupCount(s.edits[i].pattern))
    ensures OnCommon(s, env, viewer, place, false, true, Some(text)) == Untouched(s)
  {
    FirstIsUnique(env.rx, s.edits, place, text, i);
    FreshFailsExactly(env, viewer, s.edits[i], text, false);
  }

  /** A cache hit writes the cached after-text as is (when it differs), whatever the edits say now. */
  lemma CommonCacheHit(s: State, env: Env, viewer: Viewer, place: Place, text: string)
    requires text in s.cache && s.cache[text].after != text
    ensures var r := OnCommon(s, env, viewer, place, false, true, Some(text));
      r.write == Some(Written(s.cache[text].after, env.lib.isJson(s.cache[text].after)))
      && r.state.cache == s.cache
  {
  }

  /**
   * Caching is invisible in the packets: handling the same text again, at the
   * same or any other place, writes what the first handling wrote.
   */
  lemma CommonRepeatable(s: State, env: Env, viewer: Viewer, p: Place, q: Place, text: string)
    ensures var r1 := OnCommon(s, env, viewer, p, false, true, Some(text));
      var r2 := OnCommon(r1.state, env, viewer, q, false, true, Some(text));
      Resolve(s, env, viewer, p, text, false).NoEdit? || Resolve(s, env, viewer, p, text, false).Threw?
      || r2.write == r1.write
  {
    var res := Resolve(s, env, viewer, p, text, false);
    var r1 := OnCommon(s, env, viewer, p, false, true, Some(text));
    if !res.NoEdit? && !res.Threw? {
      assert r1.state.cache == Remember(s, text, res).cache;
      assert text in r1.state.cache && r1.state.cache[text].after == After(res, text);
    }
  }

  // ---------------------------------------------------------------------------
  // Boss bar
  // ---------------------------------------------------------------------------

  /** The boss-bar packet's action before 1.17; only two constants matter here. */
  datatype BossBarAction = Add | UpdateName | OtherAction(code: nat)

  /**
   * The fields the boss-bar filter reads: the action (`None` where
   * `readSafely` finds none) and, from 1.17 on, the number of chat components
   * in structure 1 (`None` where there is no such structure).
   */
  datatype BossBarPacket = BossBarPacket(action: Option<BossBarAction>, components: Option<nat>, text: Option<string>)

  /** `BossBarPacketListener.shouldProcess`. */
  predicate BossBarShouldProcess(server: Version, packet: BossBarPacket): (r: bool)
    ensures r && !AtOrAbove(server, CavesCliffs1) ==> packet.action.Some? && !packet.action.value.OtherAction?
    ensures r && AtOrAbove(server, CavesCliffs1) ==> packet.components == Some(1)
  {
    if !AtOrAbove(server, CavesCliffs1) then packet.action == Some(Add) || packet.action == Some(UpdateName)
    else packet.components == Some(1)
  }

  /** The boss-bar listener: the common listener at `BOSS_BAR` behind its own filter. */
  function OnBossBar(s: State, env: Env, viewer: Viewer, cancelled: bool, packet: BossBarPacket): (r: Effect)
    ensures !BossBarShouldProcess(env.server, packet) ==> r == Untouched(s)
  {
    OnCommon(s, env, viewer, BossBar, cancelled, BossBarShouldProcess(env.server, packet), packet.text)
  }

  /** Before 1.17 only ADD and UPDATE_NAME pass, and a missing action does not; from 1.17 one component is needed. */
  lemma BossBarFilter(server: Version, packet: BossBarPacket)
    ensures !AtOrAbove(server, CavesCliffs1) ==>
      (BossBarShouldProcess(server, packet) <==> packet.action in {Some(Add), Some(UpdateName)})
    ensures packet.action.None? && !AtOrAbove(server, CavesCliffs1) ==> !BossBarShouldProcess(server, packet)
    ensures AtOrAbove(server, CavesCliffs1) ==> (BossBarShouldProcess(server, packet) <==> packet.components == Some(1))
  {
  }

  // ---------------------------------------------------------------------------
  // Scoreboard title
  // ---------------------------------------------------------------------------

  /**
   * `ScoreboardTitlePacketListener.onPacketSending`: only objective creation
   * (action 0) and display-name updates (action 2) are rewritten, and a fresh
   * result also goes through MVdWPlaceholderAPI.
   */
  function OnScoreboardTitle(s: State, env: Env, viewer: Viewer, cancelled: bool, action: int, text: Option<string>): (r: Effect)
    ensures cancelled || (action != 0 && action != 2) || text.None? ==> r == Untouched(s)
    ensures KeepsConfig(s, r.state) && !r.cancel && (r.setPacket <==> r.write.Some?)
  {
    if cancelled || (action != 0 && action != 2) || text.None? then Untouched(s)
    else Process(s, env, viewer, ScoreboardTitle, text.value, true)
  }

  /** A fresh scoreboard title is replaced, translated, then resolved by PlaceholderAPI and then by MVdW. */
  lemma ScoreboardPlaceholderOrder(s: State, env: Env, viewer: Viewer, action: int, text: string, i: nat, replaced: string)
    requires action == 0 || action == 2
    requires text !in s.cache && FirstToFire(env.rx, s.edits, ScoreboardTitle, text, i)
    requires env.placeholderApi && env.mvdwApi
    requires s.edits[i].after.Some? && env.rx.replaceAll(s.edits[i].pattern, text, s.edits[i].after.value) == Some(replaced)
    ensures After(Resolve(s, env, viewer, ScoreboardTitle, text, true), text)
        == viewer.mvdwPlaceholderApi(viewer.placeholderApi(env.lib.translate(replaced)))
  {
    FirstIsUnique(env.rx, s.edits, ScoreboardTitle, text, i);
  }

  // ---------------------------------------------------------------------------
  // Chat
  // ---------------------------------------------------------------------------

  /** The fields of a chat packet the listener reads. */
  datatype ChatPacket = ChatPacket(chatBytes: seq<int>, chatType: Option<ChatType>, text: Option<string>)

  /** An edit's after-place is taken only when it is one of the three chat places. */
  function SwitchPlace(current: Place, target: Option<Place>): (r: Place)
    ensures r == current || (target == Some(r) && IsChatPlace(r))
    ensures target.Some? && IsChatPlace(target.value) ==> r == target.value
  {
    if target.Some? && IsChatPlace(target.value) then target.value else current
  }

  /** The place the message is sent in after resolution. */
  function PlaceAfter(res: Resolution, place: Place): Place {
    match res
    case NoEdit => place
    case Cached(entry) => SwitchPlace(place, entry.edit.afterPlace)
    case Rewritten(edit, _) => SwitchPlace(place, edit.afterPlace)
    case Threw(_) => place
  }

  /** The command the click event runs. */
  const EditCommand: string := "/message-editor edit "

  /** The chat-type field that records a switch to `target`: the byte when exactly one byte field exists. */
  function TypeWriteFor(original: Place, target: Place, chatBytes: seq<int>): (r: TypeWrite)
    requires IsChatPlace(target)
    ensures target == original <==> r.NoTypeWrite?
    ensures r.ByteWrite? ==> |chatBytes| == 1 && Some(r.b) == ChatByte(target)
    ensures r.EnumWrite? ==> |chatBytes| != 1 && Some(r.t) == ChatEnum(target)
  {
    if target == original then NoTypeWrite
    else if |chatBytes| == 1 then ByteWrite(ChatByte(target).value)
    else EnumWrite(ChatEnum(target).value)
  }

  /** The chat listener once the place and the text are known. */
  function ProcessChat(s: State, env: Env, viewer: Viewer, place: Place, chatBytes: seq<int>, text: string): (r: Effect)
    requires IsChatPlace(place)
    ensures KeepsConfig(s, r.state)
    ensures r.cancel ==> r.write.None? && r.typeWrite.NoTypeWrite? && !r.setPacket
    ensures r.setPacket <==> r.write.Some? || !r.typeWrite.NoTypeWrite?
    ensures r.write.Some? ==> r.write.value.text != text
    ensures Resolve(s, env, viewer, place, text, false).Threw? ==> r == Untouched(s)
  {
    var res := Resolve(s, env, viewer, place, text, false);
    var s1 := Remember(s, text, res);
    var after := After(res, text);
    if res.Threw? then Untouched(s)
    else if !res.NoEdit? && after == "" then Effect(s1, true, None, NoTypeWrite, false)
    else
      var target := PlaceAfter(res, place);
      var json := env.lib.isJson(after);
      var id := MessageUtils.GenerateId(target, after);
      var s2 := RememberShown(s1, target, after, json);
      var decorated := env.decorate && viewer.mayEdit;
      var sent := if decorated then env.lib.decorate(after, json, EditCommand + id) else after;
      var typeWrite := TypeWriteFor(place, target, chatBytes);
      var write := if sent != text then Some(Written(sent, decorated || json)) else None;
      Effect(s2, false, write, typeWrite, sent != text || target != place)
  }

  /**
   * `ChatPacketListener.onPacketSending`. A packet `fromPacket` cannot
   * classify makes `getMessage` throw, which leaves the event as it was.
   */
  function OnChat(s: State, env: Env, viewer: Viewer, cancelled: bool, packet: ChatPacket): (r: Effect)
    ensures cancelled || packet.text.None? ==> r == Untouched(s)
    ensures FromPacket(Chat, packet.chatBytes, packet.chatType).None? ==> r == Untouched(s)
    ensures KeepsConfig(s, r.state)
  {
    if cancelled then Untouched(s)
    else match FromPacket(Chat, packet.chatBytes, packet.chatType)
      case None => Untouched(s)
      case Some(place) =>
        if packet.text.None? then Untouched(s)
        else
          ChatPlaceIsChat(packet.chatBytes, packet.chatType);
          ProcessChat(s, env, viewer, place, packet.chatBytes, packet.text.value)
  }

  /** `fromPacket` on a chat packet only ever yields one of the three chat places. */
  lemma ChatPlaceIsChat(chatBytes: seq<int>, chatType: Option<ChatType>)
    ensures FromPacket(Chat, chatBytes, chatType).Some? ==> IsChatPlace(FromPacket(Chat, chatBytes, chatType).value)
  {
    var r := FromPacket(Chat, chatBytes, chatType);
    if |chatBytes| == 1 {
      FromChatByteTable(Chat, chatBytes[0]);
    } else {
      FromChatEnumTable(Chat, chatType);
    }
  }

  /** An empty result cancels the packet; a fresh empty result is cached first. */
  lemma ChatCancelsEmpty(s: State, env: Env, viewer: Viewer, place: Place, chatBytes: seq<int>, text: string)
    requires IsChatPlace(place)
    requires !Resolve(s, env, viewer, place, text, false).NoEdit? && !Resolve(s, env, viewer, place, text, false).Threw?
    requires After(Resolve(s, env, viewer, place, text, false), text) == ""
    ensures var r := ProcessChat(s, env, viewer, place, chatBytes, text);
      r.cancel && text in r.state.cache && r.state.cache[text].after == ""
  {
  }

  /** A chat message that no edit touches and that is not decorated is let through as it was. */
  lemma ChatNoEdit(s: State, env: Env, viewer: Viewer, place: Place, chatBytes: seq<int>, text: string)
    requires IsChatPlace(place) && !(env.decorate && viewer.mayEdit)
    requires Resolve(s, env, viewer, place, text, false).NoEdit?
    ensures var r := ProcessChat(s, env, viewer, place, chatBytes, text);
      !r.cancel && !r.setPacket && r.write.None? && r.state.cache == s.cache
  {
  }

  /**
   * When the message survives, its id is computed from the final place and
   * the undecorated final text, the shown-message cache holds that message
   * under the id, and a decorated message carries the edit command with it.
   */
  lemma ChatIdFromFinal(s: State, env: Env, viewer: Viewer, place: Place, chatBytes: seq<int>, text: string)
    requires IsChatPlace(place)
    ensures var res := Resolve(s, env, viewer, place, text, false);
      var after := After(res, text);
      var target := PlaceAfter(res, place);
      var id := MessageUtils.GenerateId(target, after);
      var r := ProcessChat(s, env, viewer, place, chatBytes, text);
      !r.cancel && !res.Threw? ==>
        id in r.state.dataCache && r.state.dataCache[id] == MessageData(target, after, env.lib.isJson(after))
        && (env.decorate && viewer.mayEdit && r.write.Some? ==>
              r.write.value == Written(env.lib.decorate(after, env.lib.isJson(after), EditCommand + id), true))
  {
  }

  /** The place only ever switches to a chat place named by the edit that applied. */
  lemma ChatSwitchesToChatPlace(s: State, env: Env, viewer: Viewer, place: Place, chatBytes: seq<int>, text: string)
    requires IsChatPlace(place)
    ensures var res := Resolve(s, env, viewer, place, text, false);
      var r := ProcessChat(s, env, viewer, place, chatBytes, text);
      !r.typeWrite.NoTypeWrite? ==>
        !r.cancel && !res.NoEdit? && r.setPacket
        && IsChatPlace(PlaceAfter(res, place)) && PlaceAfter(res, place) != place
        && (res.Cached? ==> res.entry.edit.afterPlace == Some(PlaceAfter(res, place)))
        && (res.Rewritten? ==> res.edit.afterPlace == Some(PlaceAfter(res, place)))
  {
  }
}
