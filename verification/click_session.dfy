/**
 * Clicks in the editor menu (`PlayerInventoryClickListener`): a click in the
 * menu is always cancelled; the five buttons start an input mode (closing the
 * menu so the player can type), refuse a place change, save the session as a
 * new edit, or close the menu.
 */
module ClickSession {
  import opened Wrappers
  import opened Versions
  import opened Places
  import opened Externals
  import opened Edits
  import opened EditData
  import opened Plugin
  import opened Replacement
  import opened Rewrite
  import opened Menu
  import ChatSession

  /** The menu's title before colour translation. */
  const MenuTitle: string := "&8Message Editor"

  /** `ClickType.isLeftClick()` / `isRightClick()`; the two never hold together. */
  datatype MouseButton = LeftClick | RightClick | OtherClick

  /** What the listener reads of an `InventoryClickEvent`. */
  datatype Click = Click(title: string, outside: bool, nothing: bool, slot: int, size: nat, mouse: MouseButton)

  /**
   * The slots the listener reacts to, as written: 11, 15, 24, 48 and 50 (the
   * positions of an earlier menu layout).
   */
  function ButtonAtAsWritten(slot: int): (r: Button)
    ensures r == OldMessageButton <==> slot == 11
    ensures r == NewMessageButton <==> slot == 15
    ensures r == PlaceButton <==> slot == 24
    ensures r == SaveButton <==> slot == 48
    ensures r == CancelButton <==> slot == 50
  {
    if slot == 11 then OldMessageButton
    else if slot == 15 then NewMessageButton
    else if slot == 24 then PlaceButton
    else if slot == 48 then SaveButton
    else if slot == 50 then CancelButton
    else NoButton
  }

  /** The slots of the items that offer each action in the menu as it is laid out. */
  function ButtonAt(slot: int): (r: Button)
    ensures r == OldMessageButton <==> slot == 20
    ensures r == NewMessageButton <==> slot == 24
    ensures r == PlaceButton <==> slot == 33
    ensures r == SaveButton <==> slot == 50
    ensures r == CancelButton <==> slot == 48
  {
    if slot == 20 then OldMessageButton
    else if slot == 24 then NewMessageButton
    else if slot == 33 then PlaceButton
    else if slot == 50 then SaveButton
    else if slot == 48 then CancelButton
    else NoButton
  }

  /** What the player is told (sounds are not modelled). */
  datatype ClickNotice =
    | Quiet
    | AskOldKey
    | AskNewMessage(mayRemove: bool)
    | AskNewKey
    | PlaceLocked
    | AskPlace(listed: seq<Place>)
    | Saved
    | SaveThrew

  /** The listener's effect: the plugin state, whether the click is cancelled, whether the menu closes. */
  datatype ClickEffect = ClickEffect(state: State, cancel: bool, close: bool, notice: ClickNotice)

  /**
   * How the save button prepares the new message as a replacement: as the
   * listener is written, or corrected so that a lone `$` is escaped too.
   */
  datatype Preparation = AsWritten | Corrected

  /** The new message of a saved edit under the chosen preparation. */
  function Prepared(how: Preparation, m: string, matches: bool, groupCount: nat): (r: string)
    ensures !matches ==> r == Quote(m)
    ensures how == Corrected ==> Expandable(r, groupCount)
  {
    match how
    case AsWritten => SaveReplacementAsWritten(m, matches, groupCount)
    case Corrected =>
      PreparedExpandable(m, matches, groupCount);
      SaveReplacement(m, matches, groupCount)
  }

  lemma PreparedExpandable(m: string, matches: bool, groupCount: nat)
    ensures Expandable(SaveReplacement(m, matches, groupCount), groupCount)
  {
    var groups := seq(groupCount + 1, k => "");
    if matches {
      KeepRefsExpands(m, groupCount, groups);
    } else {
      ExpandQuote(m, groups);
    }
    ExpandFailsExactly(SaveReplacement(m, matches, groupCount), groups);
  }

  /**
   * The edit the save button builds from a session: `None` when the pattern
   * does not compile (the listener throws before adding anything).
   */
  function SavedEdit(rx: Regex, d: Session, how: Preparation): (r: Option<Edit>)
    ensures r.Some? <==> rx.compiles(d.oldPattern)
    ensures r.Some? ==> r.value.pattern == d.oldPattern && r.value.before == Some(d.oldPlace)
    ensures r.Some? ==> r.value.afterPlace == Some(d.newPlace) && r.value.after.Some?
    ensures r.Some? && !rx.fullMatch(d.oldPattern, d.originalOldMessage) ==> r.value.after == Some(Quote(d.newMessage))
    ensures r.Some? && how == Corrected ==> Expandable(r.value.after.value, rx.groupCount(d.oldPattern))
  {
    if !rx.compiles(d.oldPattern) then None
    else
      var matches := rx.fullMatch(d.oldPattern, d.originalOldMessage);
      NewEdit(rx, d.oldPattern, Some(d.oldPlace), Some(Prepared(how, d.newMessage, matches, rx.groupCount(d.oldPattern))), Some(d.newPlace))
  }

  /** A button's effect on the session: an input mode opened (the menu closes), or a refusal. */
  datatype Opened = Opened(session: Session, notice: ClickNotice) | Refused(notice: ClickNotice)

  /** The three buttons that put the session into an input mode. */
  function OpenInput(server: Version, d: Session, b: Button, mouse: MouseButton): (r: Opened)
    ensures r.Opened? ==> SameFinals(d, r.session) && r.session.fileName == d.fileName && r.session.mode != NoMode
    ensures b == OldMessageButton ==> r == Opened(d.(mode := EditingOldPatternKey, oldPatternKey := ""), AskOldKey)
    ensures b == NewMessageButton && mouse == LeftClick ==>
      r == Opened(d.(mode := EditingNewMessage, newCache := ""), AskNewMessage(IsChatPlace(d.newPlace)))
    ensures b == NewMessageButton && mouse == RightClick ==>
      r == Opened(d.(mode := EditingNewMessageKey, newKey := ""), AskNewKey)
    ensures b == PlaceButton ==> (r.Opened? <==> IsChatPlace(d.oldPlace))
    ensures b == PlaceButton && r.Opened? ==> r.session == d.(mode := EditingNewMessagePlace)
    ensures b !in {OldMessageButton, NewMessageButton, PlaceButton} ==> r == Refused(Quiet)
  {
    match b
    case OldMessageButton => Opened(d.(mode := EditingOldPatternKey, oldPatternKey := ""), AskOldKey)
    case NewMessageButton =>
      (match mouse
       case LeftClick => Opened(d.(mode := EditingNewMessage, newCache := ""), AskNewMessage(IsChatPlace(d.newPlace)))
       case RightClick => Opened(d.(mode := EditingNewMessageKey, newKey := ""), AskNewKey)
       case OtherClick => Refused(Quiet))
    case PlaceButton =>
      if IsChatPlace(d.oldPlace) then Opened(d.(mode := EditingNewMessagePlace), AskPlace(ChatSession.AvailablePlaces(server)))
      else Refused(PlaceLocked)
    case _ => Refused(Quiet)
  }

  /** The save button: the edit appended, the rewrite cache emptied, the session kept. */
  function Save(s: State, env: Env, d: Session, how: Preparation): (r: ClickEffect)
    ensures r.cancel && r.state.sessions == s.sessions
    ensures r.state.dataCache == s.dataCache && r.state.analyzing == s.analyzing
    ensures SavedEdit(env.rx, d, how).None? ==> r == ClickEffect(s, true, false, SaveThrew)
    ensures SavedEdit(env.rx, d, how).Some? ==> r.close && r.notice == Saved && r.state.cache == map[]
    ensures SavedEdit(env.rx, d, how).Some? ==> r.state.edits == s.edits + [SavedEdit(env.rx, d, how).value]
  {
    match SavedEdit(env.rx, d, how)
    case None => ClickEffect(s, true, false, SaveThrew)
    case Some(e) => ClickEffect(ClearCache(AddEdit(s, e)), true, true, Saved)
  }

  /** The button `b`, pressed by a player with a session `d`. */
  function Press(s: State, env: Env, how: Preparation, player: nat, d: Session, b: Button, mouse: MouseButton): (r: ClickEffect)
    requires player in s.sessions && s.sessions[player] == d
    ensures r.cancel
    ensures r.state.dataCache == s.dataCache && r.state.analyzing == s.analyzing
    ensures r.state.sessions.Keys == s.sessions.Keys
    ensures forall q :: q in s.sessions && q != player ==> r.state.sessions[q] == s.sessions[q]
    ensures SameFinals(d, r.state.sessions[player])
    ensures b == SaveButton ==> r == Save(s, env, d, how)
    ensures b != SaveButton ==> r.state.edits == s.edits && r.state.cache == s.cache
    ensures b != SaveButton && b != CancelButton ==> (r.close <==> OpenInput(env.server, d, b, mouse).Opened?)
    ensures b != SaveButton && r.close && OpenInput(env.server, d, b, mouse).Opened? ==>
      r.state.sessions[player] == OpenInput(env.server, d, b, mouse).session
    ensures !r.close || b == CancelButton ==> r.state == s
    ensures b == CancelButton ==> r.close
  {
    if b == SaveButton then Save(s, env, d, how)
    else if b == CancelButton then ClickEffect(s, true, true, Quiet)
    else
      match OpenInput(env.server, d, b, mouse)
      case Opened(next, notice) => ClickEffect(SetSession(s, player, next), true, true, notice)
      case Refused(notice) => ClickEffect(s, true, false, notice)
  }

  /** The click reaches the slot dispatch: in the menu, on a slot, by a player with a session. */
  predicate Reaches(s: State, env: Env, player: nat, cancelled: bool, c: Click) {
    !cancelled && c.title == env.lib.translate(MenuTitle) && !c.outside && !c.nothing && player in s.sessions
  }

  /**
   * The body of `onInventoryClick` (registered with `ignoreCancelled`) once
   * the clicked slot has been read as the button `b`. The raw-slot guard
   * `slot < 0 && slot >= size` is kept as written; no slot passes it.
   */
  function Handle(s: State, env: Env, how: Preparation, player: nat, cancelled: bool, c: Click, b: Button): (r: ClickEffect)
    ensures r.cancel <==> !cancelled && c.title == env.lib.translate(MenuTitle)
    ensures !r.cancel || c.outside || c.nothing || player !in s.sessions ==> r.state == s && !r.close
    ensures r.state.dataCache == s.dataCache && r.state.analyzing == s.analyzing
    ensures |s.edits| <= |r.state.edits| <= |s.edits| + 1 && r.state.edits[..|s.edits|] == s.edits
    ensures b != SaveButton ==> r.state.edits == s.edits
    ensures r.state.sessions.Keys == s.sessions.Keys
    ensures forall q :: q in s.sessions && q != player ==> r.state.sessions[q] == s.sessions[q]
    ensures player in s.sessions ==> SameFinals(s.sessions[player], r.state.sessions[player])
    ensures Reaches(s, env, player, cancelled, c) ==> r == Press(s, env, how, player, s.sessions[player], b, c.mouse)
  {
    if cancelled || c.title != env.lib.translate(MenuTitle) then ClickEffect(s, false, false, Quiet)
    else if c.outside || c.nothing then ClickEffect(s, true, false, Quiet)
    else if c.slot < 0 && c.slot >= c.size then ClickEffect(s, true, false, Quiet)
    else if player !in s.sessions then ClickEffect(s, true, false, Quiet)
    else
      var r := Press(s, env, how, player, s.sessions[player], b, c.mouse);
      assert r.state.edits[..|s.edits|] == s.edits;
      r
  }

  /**
   * `onInventoryClick` as written: the slot read through the listener's own
   * slot table, and the new message prepared as the listener prepares it.
   */
  function OnClickAsWritten(s: State, env: Env, player: nat, cancelled: bool, c: Click): (r: ClickEffect)
    ensures Reaches(s, env, player, cancelled, c) && c.slot == 48 ==> r == Save(s, env, s.sessions[player], AsWritten)
    ensures Reaches(s, env, player, cancelled, c) && c.slot == 50 ==> r.state == s && r.close
  {
    Handle(s, env, AsWritten, player, cancelled, c, ButtonAtAsWritten(c.slot))
  }

  /**
   * `onInventoryClick` corrected: the slot read through the menu's layout, so
   * every click does what the clicked item's lore offers, and the new message
   * prepared so that no `$` is left bare unless it names a group.
   */
  function OnClick(s: State, env: Env, player: nat, cancelled: bool, c: Click): (r: ClickEffect)
    ensures r == Handle(s, env, Corrected, player, cancelled, c, Advertised(ItemAt(c.slot)))
  {
    ButtonsMatchLayout(c.slot);
    Handle(s, env, Corrected, player, cancelled, c, ButtonAt(c.slot))
  }

  // ---------------------------------------------------------------------------
  // The slot tables against the layout
  // ---------------------------------------------------------------------------

  /** The corrected table reads every slot as the action its item advertises. */
  lemma ButtonsMatchLayout(slot: int)
    ensures ButtonAt(slot) == Advertised(ItemAt(slot))
  {
    ItemsAtOneSlot(slot);
    MessageItemsAt();
    ButtonItemsAt();
  }

  /**
   * The listener's table does not fit the menu: the cancel item's slot saves,
   * the done item's slot only closes, two plain panes start the message
   * inputs, and the new message item opens the place input.
   */
  lemma LayoutMismatch()
    ensures ItemAt(48) == CancelItem && ButtonAtAsWritten(48) == SaveButton
    ensures ItemAt(50) == DoneItem && ButtonAtAsWritten(50) == CancelButton
    ensures ItemAt(11) == GrayPane && ButtonAtAsWritten(11) == OldMessageButton
    ensures ItemAt(15) == GrayPane && ButtonAtAsWritten(15) == NewMessageButton
    ensures ItemAt(24) == NewMessageItem && ButtonAtAsWritten(24) == PlaceButton
  {
    ButtonItemsAt();
    PanesAt();
    MessageItemsAt();
  }

  /** So, as written, clicking "Cancel" on a session with a compiling pattern adds an edit. */
  lemma CancelSavesAsWritten(s: State, env: Env, player: nat, c: Click)
    requires player in s.sessions && env.rx.compiles(s.sessions[player].oldPattern)
    requires ItemAt(c.slot) == CancelItem
    requires Reaches(s, env, player, false, c)
    ensures |OnClickAsWritten(s, env, player, false, c).state.edits| == |s.edits| + 1
    ensures OnClick(s, env, player, false, c).state == s
  {
    ItemsAtOneSlot(c.slot);
  }

  // ---------------------------------------------------------------------------
  // Saving
  // ---------------------------------------------------------------------------

  /**
   * A correctly saved edit's replacement never makes `replaceAll` throw, and
   * when the pattern does not match the original message it gives the new
   * message back literally.
   */
  lemma SavedReplacementSound(rx: Regex, d: Session, groups: seq<string>)
    requires SavedEdit(rx, d, Corrected).Some?
    requires |groups| == rx.groupCount(d.oldPattern) + 1
    ensures Expand(SavedEdit(rx, d, Corrected).value.after.value, groups).Some?
    ensures !rx.fullMatch(d.oldPattern, d.originalOldMessage) ==>
      Expand(SavedEdit(rx, d, Corrected).value.after.value, groups) == Some(d.newMessage)
  {
    var after := SavedEdit(rx, d, Corrected).value.after.value;
    ExpandFailsExactly(after, groups);
    if !rx.fullMatch(d.oldPattern, d.originalOldMessage) {
      ExpandQuote(d.newMessage, groups);
    }
  }

  /**
   * As written, a session whose pattern matches its original message and whose
   * new message is "5$" is saved as the replacement "5$", and every text the
   * saved edit then fires on makes `replaceAll` throw.
   */
  lemma SavedLoneDollarThrows(env: Env, viewer: Viewer, d: Session, text: string, withMvdw: bool)
    requires ThrowsOnlyOnBadReplacement(env.rx)
    requires env.rx.compiles(d.oldPattern) && env.rx.fullMatch(d.oldPattern, d.originalOldMessage)
    requires d.newMessage == "5$" && env.rx.fullMatch(d.oldPattern, text)
    ensures SavedEdit(env.rx, d, AsWritten).value.after == Some("5$")
    ensures Fresh(env, viewer, SavedEdit(env.rx, d, AsWritten).value, text, withMvdw).None?
  {
    var groups := seq(env.rx.groupCount(d.oldPattern) + 1, k => "");
    LoneDollarThrows(groups);
    ExpandFailsExactly("5$", groups);
    FreshFailsExactly(env, viewer, SavedEdit(env.rx, d, AsWritten).value, text, withMvdw);
  }

  /**
   * "Saved and applied": right after a corrected save, with the cache
   * cleared, a text the saved pattern matches at the old place is rewritten by
   * the saved edit, and the rewrite does not throw, unless an edit added
   * before it fires first.
   */
  lemma SavedEditApplies(s: State, env: Env, viewer: Viewer, player: nat, d: Session, mouse: MouseButton, text: string, withMvdw: bool)
    requires player in s.sessions && s.sessions[player] == d
    requires ThrowsOnlyOnBadReplacement(env.rx)
    requires env.rx.compiles(d.oldPattern) && env.rx.fullMatch(d.oldPattern, text)
    requires forall j :: 0 <= j < |s.edits| ==> !Fires(env.rx, s.edits[j], d.oldPlace, text)
    ensures var r := Press(s, env, Corrected, player, d, SaveButton, mouse);
      var e := SavedEdit(env.rx, d, Corrected).value;
      r.notice == Saved && Fresh(env, viewer, e, text, withMvdw).Some?
      && Resolve(r.state, env, viewer, d.oldPlace, text, withMvdw) == Rewritten(e, Fresh(env, viewer, e, text, withMvdw).value)
  {
    var e := SavedEdit(env.rx, d, Corrected).value;
    var r := Press(s, env, Corrected, player, d, SaveButton, mouse);
    assert r.state.edits == s.edits + [e];
    assert Fires(env.rx, e, d.oldPlace, text);
    AppendedEditLast(env.rx, s.edits, e, d.oldPlace, text);
    FreshFailsExactly(env, viewer, e, text, withMvdw);
  }

  /** A save leaves the session and its mode as they are, so the player can save again. */
  lemma SaveKeepsSession(s: State, env: Env, how: Preparation, player: nat, d: Session, mouse: MouseButton)
    requires player in s.sessions && s.sessions[player] == d
    ensures Press(s, env, how, player, d, SaveButton, mouse).state.sessions == s.sessions
  {
  }

  // ---------------------------------------------------------------------------
  // The menu and the chat together
  // ---------------------------------------------------------------------------

  /**
   * Left-clicking the new message of a chat-place message and then typing
   * "remove" empties the new message and reopens the menu.
   */
  lemma ClickThenRemove(s: State, env: Env, how: Preparation, player: nat, d: Session)
    requires player in s.sessions && s.sessions[player] == d && IsChatPlace(d.newPlace)
    ensures var r1 := Press(s, env, how, player, d, NewMessageButton, LeftClick);
      var r2 := ChatSession.OnPlayerChat(r1.state, env, player, false, ChatSession.Remove);
      r1.notice == AskNewMessage(true) && r2.cancel && r2.reopen
      && r2.state.sessions[player].newMessage == "" && r2.state.sessions[player].mode == NoMode
  {
    var r1 := Press(s, env, how, player, d, NewMessageButton, LeftClick);
    var d1 := r1.state.sessions[player];
    assert d1 == d.(mode := EditingNewMessage, newCache := "");
    ChatSession.RemoveOnlyForChat(env.lib, env.server, d1);
  }

  /** Opening any input from the menu makes the player's next chat line part of the session. */
  lemma InputSwallowsChat(s: State, env: Env, how: Preparation, player: nat, d: Session, b: Button, mouse: MouseButton, line: string)
    requires player in s.sessions && s.sessions[player] == d
    requires b != SaveButton && b != CancelButton
    requires Press(s, env, how, player, d, b, mouse).close
    ensures ChatSession.OnPlayerChat(Press(s, env, how, player, d, b, mouse).state, env, player, false, line).cancel
  {
  }
}
