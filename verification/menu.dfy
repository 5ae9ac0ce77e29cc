/**
 * The editor menu (`MenuManager`): a 54-slot inventory whose border panes,
 * message items and buttons sit at fixed slots, and the lore of the message
 * items: the message split into its lines and each line word-wrapped at 40
 * characters, every wrapped line starting with the colours the previous one
 * ended in.
 */
module Menu {
  import opened Wrappers
  import opened Strings
  import opened Versions
  import opened Places
  import opened Externals
  import opened EditData
  import opened MessageUtils
  import opened Plugin
  import ChatSession

  // ---------------------------------------------------------------------------
  // The layout
  // ---------------------------------------------------------------------------

  const MenuSize: nat := 54

  /** What an inventory slot of the menu holds. */
  datatype MenuItem =
    | Empty
    | BlackPane
    | GrayPane
    | FileNameItem
    | OldMessageItem
    | OldPlaceItem
    | NewMessageItem
    | NewPlaceItem
    | MessageArrow
    | PlaceArrow
    | DoneItem
    | CancelItem

  /** One `setItem` loop or call: the item put into each of the slots. */
  datatype Placement = Placement(slots: set<int>, item: MenuItem)

  const BlackSlots: set<int> := {0, 1, 2, 3, 5, 6, 7, 8, 9, 17, 18, 26, 27, 35, 36, 37, 38, 40, 42, 43, 44, 45, 46, 47, 49, 51, 52, 53}
  const GraySlots: set<int> := {10, 11, 12, 13, 14, 15, 16, 19, 21, 23, 25, 28, 29, 30, 31, 32, 34, 37, 38, 39, 40, 41, 42, 43}

  /** The `setItem` calls of `openMenu`, in order. */
  const Placements: seq<Placement> := [
    Placement(BlackSlots, BlackPane),
    Placement(GraySlots, GrayPane),
    Placement({4}, FileNameItem),
    Placement({20}, OldMessageItem),
    Placement({29}, OldPlaceItem),
    Placement({24}, NewMessageItem),
    Placement({33}, NewPlaceItem),
    Placement({22}, MessageArrow),
    Placement({31}, PlaceArrow),
    Placement({50}, DoneItem),
    Placement({48}, CancelItem)
  ]

  /** What `slot` holds after the placements `ps`: the last one that covers it wins. */
  function ItemIn(ps: seq<Placement>, slot: int): (r: MenuItem)
    ensures r != Empty ==> exists j :: 0 <= j < |ps| && slot in ps[j].slots
    decreases |ps|
  {
    if ps == [] then Empty
    else
      var later := ItemIn(ps[1..], slot);
      if later != Empty then later
      else if slot in ps[0].slots then ps[0].item
      else Empty
  }

  /** The item the opened menu shows at `slot`. */
  function ItemAt(slot: int): MenuItem {
    ItemIn(Placements, slot)
  }

  /** A non-empty slot holds the item of some placement that covers it. */
  lemma {:induction false} ItemInPlaced(ps: seq<Placement>, slot: int)
    ensures ItemIn(ps, slot) != Empty ==>
      exists i :: 0 <= i < |ps| && ps[i].item == ItemIn(ps, slot) && slot in ps[i].slots
    decreases |ps|
  {
    if ps != [] && ItemIn(ps[1..], slot) != Empty {
      ItemInPlaced(ps[1..], slot);
      var i :| 0 <= i < |ps| - 1 && ps[1..][i].item == ItemIn(ps, slot) && slot in ps[1..][i].slots;
      assert ps[i + 1] == ps[1..][i];
    }
  }

  /** Each message item and button is placed once, at one slot. */
  lemma ItemsAtOneSlot(slot: int)
    ensures ItemAt(slot) == OldMessageItem ==> slot == 20
    ensures ItemAt(slot) == NewMessageItem ==> slot == 24
    ensures ItemAt(slot) == NewPlaceItem ==> slot == 33
    ensures ItemAt(slot) == DoneItem ==> slot == 50
    ensures ItemAt(slot) == CancelItem ==> slot == 48
  {
    ItemInPlaced(Placements, slot);
  }

  /** A slot no placement covers stays empty. */
  lemma {:induction false} ItemInUncovered(ps: seq<Placement>, slot: int)
    requires forall j :: 0 <= j < |ps| ==> slot !in ps[j].slots
    ensures ItemIn(ps, slot) == Empty
    decreases |ps|
  {
    if ps != [] {
      ItemInUncovered(ps[1..], slot);
    }
  }

  /** A slot shows the item of the last placement that covers it. */
  lemma {:induction false} ItemInLast(ps: seq<Placement>, slot: int, i: nat)
    requires i < |ps| && slot in ps[i].slots && ps[i].item != Empty
    requires forall j :: i < j < |ps| ==> slot !in ps[j].slots
    ensures ItemIn(ps, slot) == ps[i].item
    decreases |ps|
  {
    if i == 0 {
      ItemInUncovered(ps[1..], slot);
    } else {
      ItemInLast(ps[1..], slot, i - 1);
    }
  }

  /** The message items sit at 20 (old message), 24 (new message) and 33 (new place). */
  lemma MessageItemsAt()
    ensures ItemAt(20) == OldMessageItem && ItemAt(24) == NewMessageItem && ItemAt(33) == NewPlaceItem
  {
    OldMessageAt();
    NewMessageAt();
    NewPlaceAt();
  }

  /** The old message item sits at slot 20. */
  lemma OldMessageAt()
    ensures ItemAt(20) == OldMessageItem
  {
    ItemInLast(Placements, 20, 3);
  }

  /** The new message item sits at slot 24. */
  lemma NewMessageAt()
    ensures ItemAt(24) == NewMessageItem
  {
    ItemInLast(Placements, 24, 5);
  }

  /** The new place item sits at slot 33. */
  lemma NewPlaceAt()
    ensures ItemAt(33) == NewPlaceItem
  {
    ItemInLast(Placements, 33, 6);
  }

  /** The done item sits at 50 and the cancel item at 48, over the border panes there. */
  lemma ButtonItemsAt()
    ensures ItemAt(48) == CancelItem && ItemAt(50) == DoneItem
  {
    ItemInLast(Placements, 50, 9);
    ItemInLast(Placements, 48, 10);
  }

  /** Slots 11 and 15 hold plain border panes. */
  lemma PanesAt()
    ensures ItemAt(11) == GrayPane && ItemAt(15) == GrayPane
  {
    ItemInLast(Placements, 11, 1);
    ItemInLast(Placements, 15, 1);
  }

  // ---------------------------------------------------------------------------
  // What the items offer
  // ---------------------------------------------------------------------------

  /** The actions of the menu's click handler. */
  datatype Button = OldMessageButton | NewMessageButton | PlaceButton | SaveButton | CancelButton | NoButton

  /**
   * The action an item's lore offers. The file-name item's "Click to edit file
   * name" has no handler in the plugin, so it offers nothing here.
   */
  function Advertised(item: MenuItem): Button {
    match item
    case OldMessageItem => OldMessageButton
    case NewMessageItem => NewMessageButton
    case NewPlaceItem => PlaceButton
    case DoneItem => SaveButton
    case CancelItem => CancelButton
    case _ => NoButton
  }

  // ---------------------------------------------------------------------------
  // Word wrapping
  // ---------------------------------------------------------------------------

  /** `MESSAGE_LENGTH`: a wrapped line is cut once `length()` reaches this many UTF-16 code units. */
  const MessageLength: nat := 40

  /**
   * The wrapping loop over the words of one line: each word joins the pending
   * chunk (after a space unless the chunk is empty); the chunk is emitted at
   * the last word or once its `length()` is `MessageLength`. Java counts a
   * character outside the Basic Multilingual Plane twice.
   */
  function Wrap(words: seq<string>, chunk: string): (r: seq<string>)
    ensures |r| <= |words|
    ensures words != [] ==> |r| >= 1
    ensures forall k :: 0 <= k < |r| - 1 ==> |Utf16(r[k])| >= MessageLength
    decreases |words|
  {
    if words == [] then []
    else
      var c := (if chunk != "" then chunk + " " else "") + words[0];
      if |words| == 1 || |Utf16(c)| >= MessageLength then [c] + Wrap(words[1..], "")
      else Wrap(words[1..], c)
  }

  /** A chunk is emitted only at its last word: before that word it was shorter than the limit. */
  lemma {:induction false} WrapJoin(words: seq<string>, chunk: string)
    requires words != []
    requires forall k :: 0 <= k < |words| ==> words[k] != ""
    ensures Join(Wrap(words, chunk), " ") == (if chunk == "" then "" else chunk + " ") + Join(words, " ")
    decreases |words|, 1
  {
    var prefix := if chunk == "" then "" else chunk + " ";
    var c := prefix + words[0];
    var rest := words[1..];
    if |words| == 1 {
      assert Wrap(words, chunk) == [c];
    } else {
      var joined := Join(rest, " ");
      assert Join(words, " ") == words[0] + " " + joined by {
        assert words == [words[0]] + rest;
        JoinCons(words[0], rest, " ");
      }
      assert forall k :: 0 <= k < |rest| ==> rest[k] == words[k + 1];
      assert Join(Wrap(words, chunk), " ") == c + " " + joined by {
        WrapJoinStep(words, chunk);
      }
      assert c + " " + joined == prefix + (words[0] + " " + joined);
    }
  }

  /** One step of WrapJoin: the first word either closes a chunk or extends it. */
  lemma {:induction false} WrapJoinStep(words: seq<string>, chunk: string)
    requires |words| > 1
    requires forall k :: 0 <= k < |words| ==> words[k] != ""
    ensures Join(Wrap(words, chunk), " ")
      == (if chunk == "" then "" else chunk + " ") + words[0] + " " + Join(words[1..], " ")
    decreases |words|, 0
  {
    var c := (if chunk == "" then "" else chunk + " ") + words[0];
    var rest := words[1..];
    assert forall k :: 0 <= k < |rest| ==> rest[k] == words[k + 1];
    if |Utf16(c)| >= MessageLength {
      assert Wrap(words, chunk) == [c] + Wrap(rest, "");
      WrapJoin(rest, "");
      JoinCons(c, Wrap(rest, ""), " ");
    } else {
      assert Wrap(words, chunk) == Wrap(rest, c);
      WrapJoin(rest, c);
    }
  }

  /** The chunks of the lines, one line after the other. */
  function Chunks(lines: seq<string>): (r: seq<string>)
    decreases |lines|
  {
    if lines == [] then [] else Wrap(JavaSplit(lines[0], " "), "") + Chunks(lines[1..])
  }

  /**
   * The lore lines of the chunks: the first as it is when no line precedes
   * it, every other one prefixed with `getLastColors` of the line before.
   */
  function Colorize(chunks: seq<string>, previous: Option<string>, hex: HexColors): (r: seq<string>)
    ensures |r| == |chunks|
    ensures |r| > 0 ==> r[0] == (if previous.None? then chunks[0] else GetLastColors(previous.value, hex) + chunks[0])
    ensures forall k :: 0 < k < |r| ==> r[k] == GetLastColors(r[k - 1], hex) + chunks[k]
    decreases |chunks|
  {
    if chunks == [] then []
    else
      var line := if previous.None? then chunks[0] else GetLastColors(previous.value, hex) + chunks[0];
      var rest := Colorize(chunks[1..], Some(line), hex);
      assert forall k :: 1 < k < |rest| + 1 ==> ([line] + rest)[k] == rest[k - 1];
      [line] + rest
  }

  /** The regex the message is split into lines with: a newline for JSON, backslash-n for legacy text. */
  function LineSeparator(json: bool): (r: string)
    ensures |r| > 0
  {
    if json then "\n" else "\\n"
  }

  /** The lore block of a message: an empty line, then the wrapped, coloured lines. */
  function MessageLore(shown: string, json: bool, hex: HexColors): (r: seq<string>)
    ensures |r| >= 1 && r[0] == ""
    ensures r[1..] == Colorize(Chunks(JavaSplit(shown, LineSeparator(json))), None, hex)
  {
    [""] + Colorize(Chunks(JavaSplit(shown, LineSeparator(json))), None, hex)
  }

  /** A one-line legacy message of non-empty words: its wrapped lines rejoin to the message's words. */
  lemma OneLineChunks(shown: string)
    requires IndexOf(shown, LineSeparator(false)).None?
    requires var words := JavaSplit(shown, " "); words != [] && forall k :: 0 <= k < |words| ==> words[k] != ""
    ensures Join(Chunks(JavaSplit(shown, LineSeparator(false))), " ") == Join(JavaSplit(shown, " "), " ")
  {
    var words := JavaSplit(shown, " ");
    assert JavaSplit(shown, LineSeparator(false)) == [shown];
    assert Chunks([shown]) == Wrap(words, "") + Chunks([]);
    assert Wrap(words, "") + Chunks([]) == Wrap(words, "");
    WrapJoin(words, "");
  }

  /** Lines without section signs carry no colour prefix: the lore lines are the chunks themselves. */
  lemma NoColorsPassThrough(chunks: seq<string>, hex: HexColors)
    requires forall j, k :: 0 <= j < |chunks| && 0 <= k < |chunks[j]| ==> chunks[j][k] != Section
    ensures Colorize(chunks, None, hex) == chunks
  {
    var r := Colorize(chunks, None, hex);
    forall k | 0 <= k < |r| ensures r[k] == chunks[k] {
      PassThroughAt(chunks, hex, k);
    }
  }

  lemma {:induction false} PassThroughAt(chunks: seq<string>, hex: HexColors, k: nat)
    requires forall j, i :: 0 <= j < |chunks| && 0 <= i < |chunks[j]| ==> chunks[j][i] != Section
    requires k < |chunks|
    ensures Colorize(chunks, None, hex)[k] == chunks[k]
  {
    if k > 0 {
      PassThroughAt(chunks, hex, k - 1);
      NoColorsInPlainLine(chunks[k - 1], |chunks[k - 1]| - 1, hex);
    }
  }

  /** The backward scan over a text without section signs finds no colours. */
  lemma {:induction false} NoColorsInPlainLine(m: string, i: int, hex: HexColors)
    requires i < |m|
    requires forall k :: 0 <= k < |m| ==> m[k] != Section
    ensures Scan(m, i, hex) == ""
    decreases i + 1
  {
    if i >= 0 {
      assert Probe(m, i, hex) == Skip(i - 1);
      NoColorsInPlainLine(m, i - 1, hex);
    }
  }

  // ---------------------------------------------------------------------------
  // The items of an opened menu
  // ---------------------------------------------------------------------------

  /** An item's display name and lore, colour-translated. */
  datatype ItemView = ItemView(name: string, lore: seq<string>)

  /** The sign at slot 4: the file the edit is saved to. */
  function FileNameView(lib: TextLib, d: Session): (r: ItemView)
    ensures r.name == lib.translate("&6" + d.fileName) && |r.lore| == 5
    ensures r.lore[2] == lib.translate("&7in the '&eedits/" + d.fileName + ".yml&7' file")
  {
    ItemView(lib.translate("&6" + d.fileName), [
      "",
      lib.translate("&7This message edit will be saved"),
      lib.translate("&7in the '&eedits/" + d.fileName + ".yml&7' file"),
      "",
      lib.translate("&7Click to edit file name.")])
  }

  /** The old message as the lore shows it: JSON flattened to legacy text. */
  function OldMessageShown(lib: TextLib, d: Session): string {
    if d.oldJson then lib.toLegacy(d.oldMessage) else d.oldMessage
  }

  /** The text shown for a new message that has been removed. */
  const RemovedText: string := "&cMessage removed.\\n(this is not an actual message)"

  /** The new message as the lore shows it: a placeholder when removed, JSON flattened to legacy text. */
  function NewMessageShown(lib: TextLib, d: Session): string {
    if d.newMessage == "" then lib.translate(RemovedText)
    else if d.newJson then lib.toLegacy(d.newMessage)
    else d.newMessage
  }

  /** The paper at slot 20: the old message, wrapped, and how to edit its pattern. */
  function OldMessageView(lib: TextLib, hex: HexColors, d: Session): (r: ItemView)
    ensures |r.lore| >= 3 && r.lore[0] == "" && r.lore[|r.lore| - 2] == ""
    ensures r.lore[..|r.lore| - 2] == MessageLore(OldMessageShown(lib, d), d.oldJson, hex)
    ensures r.lore[|r.lore| - 1] == lib.translate("&7Click to edit old message pattern.")
  {
    var lore := MessageLore(OldMessageShown(lib, d), d.oldJson, hex);
    assert (lore + ["", lib.translate("&7Click to edit old message pattern.")])[..|lore|] == lore;
    ItemView(lib.translate("&fOld message"), lore + ["", lib.translate("&7Click to edit old message pattern.")])
  }

  /** The hint lines under the new message: left click overrides, right click replaces. */
  function NewMessageHints(lib: TextLib): seq<string> {
    ["", lib.translate("&7Click LMB to edit new message"), lib.translate("&7in the override mode."),
     "", lib.translate("&7Click RMB to edit new message"), lib.translate("&7in the replace mode.")]
  }

  /** The paper at slot 24: the new message, wrapped, and the two ways to edit it. */
  function NewMessageView(lib: TextLib, hex: HexColors, d: Session): (r: ItemView)
    ensures |r.lore| >= 7 && r.lore[0] == ""
    ensures r.lore[..|r.lore| - 6] == MessageLore(NewMessageShown(lib, d), d.newJson, hex)
    ensures r.lore[|r.lore| - 6..] == NewMessageHints(lib)
  {
    var lore := MessageLore(NewMessageShown(lib, d), d.newJson, hex);
    assert (lore + NewMessageHints(lib))[..|lore|] == lore;
    assert (lore + NewMessageHints(lib))[|lore|..] == NewMessageHints(lib);
    ItemView(lib.translate("&fNew message"), lore + NewMessageHints(lib))
  }

  /** The lines naming a place: its constant name and its friendly name. */
  function PlaceLore(lib: TextLib, p: Place): (r: seq<string>)
    ensures |r| == 3 && r[0] == ""
  {
    ["", lib.translate("&7ID: &e" + Name(p)), lib.translate("&7Friendly name: &e" + FriendlyName(p))]
  }

  /** Whether the new place's lore offers editing it. */
  predicate ShowsPlaceHint(server: Version, p: Place) {
    if !AtOrAbove(server, WildUpdate) then p == GameChat || p == SystemChat || p == ActionBar
    else p == SystemChat || p == ActionBar
  }

  /** The compass at slot 33: the new place, with the edit hint where the place may change. */
  function NewPlaceView(lib: TextLib, server: Version, d: Session): (r: ItemView)
    ensures |r.lore| == (if d.newPlace in ChatSession.AvailablePlaces(server) then 5 else 3)
    ensures r.lore[..3] == PlaceLore(lib, d.newPlace)
  {
    PlaceHintIffListed(server, d.newPlace);
    var hint := if ShowsPlaceHint(server, d.newPlace) then ["", lib.translate("&7Click to edit new message place.")] else [];
    assert (PlaceLore(lib, d.newPlace) + hint)[..3] == PlaceLore(lib, d.newPlace);
    ItemView(lib.translate("&fNew message place"), PlaceLore(lib, d.newPlace) + hint)
  }

  /** The new place's lore offers editing exactly the places the place input lists. */
  lemma PlaceHintIffListed(server: Version, p: Place)
    ensures ShowsPlaceHint(server, p) <==> p in ChatSession.AvailablePlaces(server)
  {
  }

  /** The items `openMenu` builds from a session. */
  datatype MenuView = MenuView(fileName: ItemView, oldMessage: ItemView, oldPlace: ItemView, newMessage: ItemView, newPlace: ItemView)

  /** `openMenu(player, editData)`: the items of the menu for the session `d`. */
  function MenuFor(lib: TextLib, hex: HexColors, server: Version, d: Session): (r: MenuView)
    ensures r.oldPlace.lore == PlaceLore(lib, d.oldPlace)
    ensures r.oldMessage == OldMessageView(lib, hex, d) && r.newMessage == NewMessageView(lib, hex, d)
  {
    MenuView(
      FileNameView(lib, d),
      OldMessageView(lib, hex, d),
      ItemView(lib.translate("&fOld message place"), PlaceLore(lib, d.oldPlace)),
      NewMessageView(lib, hex, d),
      NewPlaceView(lib, server, d))
  }

  /**
   * `openMenu(player, data)`: a fresh session for the shown message is stored
   * for the player, replacing any session the player had.
   */
  function OpenMenu(s: State, player: nat, id: string, data: MessageData): (r: State)
    ensures r.edits == s.edits && r.cache == s.cache && r.dataCache == s.dataCache && r.analyzing == s.analyzing
    ensures GetSession(r, player) == Some(FromMessageData(id, data))
    ensures forall q :: q != player ==> GetSession(r, q) == GetSession(s, q)
  {
    SetSession(s, player, FromMessageData(id, data))
  }

  /** A freshly opened menu shows the same message on both sides, unless it is empty. */
  lemma FreshMenuShowsSameMessage(lib: TextLib, hex: HexColors, server: Version, id: string, data: MessageData)
    requires data.message != ""
    ensures var v := MenuFor(lib, hex, server, FromMessageData(id, data));
      v.oldMessage.lore[..|v.oldMessage.lore| - 2] == v.newMessage.lore[..|v.newMessage.lore| - 6]
    ensures var v := MenuFor(lib, hex, server, FromMessageData(id, data));
      v.oldPlace.lore == v.newPlace.lore[..3]
  {
    MirroredMenu(lib, hex, server, FromMessageData(id, data));
  }

  /** A session whose new side mirrors its old side shows the same message and place on both. */
  lemma MirroredMenu(lib: TextLib, hex: HexColors, server: Version, d: Session)
    requires d.newMessage == d.oldMessage != "" && d.newJson == d.oldJson && d.newPlace == d.oldPlace
    ensures var v := MenuFor(lib, hex, server, d);
      v.oldMessage.lore[..|v.oldMessage.lore| - 2] == v.newMessage.lore[..|v.newMessage.lore| - 6]
    ensures var v := MenuFor(lib, hex, server, d);
      v.oldPlace.lore == v.newPlace.lore[..3]
  {
    MirroredMessage(lib, hex, d);
    MirroredPlace(lib, server, d);
  }

  lemma MirroredMessage(lib: TextLib, hex: HexColors, d: Session)
    requires d.newMessage == d.oldMessage != "" && d.newJson == d.oldJson
    ensures var a, b := OldMessageView(lib, hex, d).lore, NewMessageView(lib, hex, d).lore;
      a[..|a| - 2] == b[..|b| - 6]
  {
    var shown := OldMessageShown(lib, d);
    assert NewMessageShown(lib, d) == shown;
    var a, b := OldMessageView(lib, hex, d).lore, NewMessageView(lib, hex, d).lore;
    assert a[..|a| - 2] == MessageLore(shown, d.oldJson, hex);
    assert b[..|b| - 6] == MessageLore(shown, d.oldJson, hex);
  }

  lemma MirroredPlace(lib: TextLib, server: Version, d: Session)
    requires d.newPlace == d.oldPlace
    ensures NewPlaceView(lib, server, d).lore[..3] == PlaceLore(lib, d.oldPlace)
  {
  }

  /** A freshly opened menu does not take the player's chat: the session starts idle. */
  lemma OpenedMenuIgnoresChat(s: State, env: Env, player: nat, id: string, data: MessageData, line: string)
    ensures !ChatSession.OnPlayerChat(OpenMenu(s, player, id, data), env, player, false, line).cancel
  {
    assert GetSession(OpenMenu(s, player, id, data), player) == Some(FromMessageData(id, data));
  }
}
