/**
 * The inventory-items listener: every item's display name and lore go
 * through the shared rewrite decision (the lore joined into one text with a
 * literal backslash-n), JSON results are flattened to legacy text, and the
 * packet with the updated items is sent again later instead of replacing the
 * event's packet.
 */
module ItemsListener {
  import opened Wrappers
  import opened Strings
  import opened Places
  import opened Externals
  import opened EditData
  import opened Plugin
  import opened Rewrite
  import MessageUtils

  /** The parts of `ItemMeta` the listener reads: a display name and lore, each optional. */
  datatype Meta = Meta(name: Option<string>, lore: Option<seq<string>>)

  /** A slot of the packet: `null`, an item without meta, or an item with meta. */
  datatype Item = NullItem | NoMeta | WithMeta(meta: Meta)

  /** The packet's item array (used when exactly one array field exists) and item list. */
  datatype ItemsPacket = ItemsPacket(arrayFields: nat, itemArray: seq<Item>, itemList: seq<Item>)

  /** The two characters backslash and `n` that lore lines are joined with and split on. */
  const LoreSeparator: string := ['\\', 'n']

  /** The items the loop walks over. */
  function ItemsOf(packet: ItemsPacket): (r: seq<Item>)
    ensures packet.arrayFields == 1 ==> r == packet.itemArray
    ensures packet.arrayFields != 1 ==> r == packet.itemList
  {
    if packet.arrayFields == 1 then packet.itemArray else packet.itemList
  }

  /** One handled text: the plugin state afterwards, the text to show, and whether `replaceAll` threw. */
  datatype Handled = Handled(state: State, text: string, threw: bool)

  /**
   * A name or a lore text at `place`: resolve, cache a fresh result, turn a
   * JSON result into legacy text by reading it as legacy text, and record the
   * shown text (never JSON) under its id. A throw leaves the state as it was.
   */
  function HandleText(s: State, env: Env, viewer: Viewer, place: Place, text: string): (r: Handled)
    ensures r.state.edits == s.edits && r.state.sessions == s.sessions && r.state.analyzing == s.analyzing
    ensures r.threw <==> Resolve(s, env, viewer, place, text, false).Threw?
    ensures r.threw ==> r.state == s
    ensures !r.threw ==> var after := After(Resolve(s, env, viewer, place, text, false), text);
      r.text == (if env.lib.isJson(after) then env.lib.legacyText(after) else after)
    ensures !r.threw ==> MessageUtils.GenerateId(place, r.text) in r.state.dataCache
    ensures !r.threw ==> r.state.dataCache[MessageUtils.GenerateId(place, r.text)] == MessageData(place, r.text, false)
  {
    var res := Resolve(s, env, viewer, place, text, false);
    if res.Threw? then Handled(s, text, true)
    else
      var after := After(res, text);
      var shown := if env.lib.isJson(after) then env.lib.legacyText(after) else after;
      Handled(RememberShown(Remember(s, text, res), place, shown, false), shown, false)
  }

  /** One item after the loop body, whether its name or lore text changed, and whether the body threw. */
  datatype ItemStep = ItemStep(state: State, item: Item, changed: bool, threw: bool)

  /** The lore written back: the new text split on the separator (trailing empty lines dropped). */
  function NewLore(text: string): (r: seq<string>)
    ensures IndexOf(text, LoreSeparator).None? ==> r == [text]
    ensures IndexOf(text, LoreSeparator).Some? ==> r == [] || r[|r| - 1] != ""
  {
    JavaSplit(text, LoreSeparator)
  }

  /** The state after an item's display name is handled (the state itself when it has none). */
  function NameState(s: State, env: Env, viewer: Viewer, meta: Meta): State {
    if meta.name.Some? then HandleText(s, env, viewer, InventoryItemName, meta.name.value).state else s
  }

  /** Whether handling an item's display name throws. */
  predicate NameThrows(s: State, env: Env, viewer: Viewer, meta: Meta) {
    meta.name.Some? && HandleText(s, env, viewer, InventoryItemName, meta.name.value).threw
  }

  /** The loop body for one item; `HandleItemResult` states what it makes of an item with meta. */
  function HandleItem(s: State, env: Env, viewer: Viewer, item: Item): (r: ItemStep)
    ensures !item.WithMeta? ==> r == ItemStep(s, item, false, false)
    ensures !r.changed ==> r.item == item
    ensures r.threw ==> !r.changed
    ensures r.state.edits == s.edits && r.state.sessions == s.sessions && r.state.analyzing == s.analyzing
  {
    match item
    case NullItem => ItemStep(s, item, false, false)
    case NoMeta => ItemStep(s, item, false, false)
    case WithMeta(meta) =>
      var named :=
        if meta.name.Some? then HandleText(s, env, viewer, InventoryItemName, meta.name.value)
        else Handled(s, "", false);
      if named.threw then ItemStep(named.state, item, false, true)
      else
        var nameChanged := meta.name.Some? && named.text != meta.name.value;
        var name := if nameChanged then Some(named.text) else meta.name;
        var loreText := if meta.lore.Some? then Join(meta.lore.value, LoreSeparator) else "";
        var lored :=
          if meta.lore.Some? then HandleText(named.state, env, viewer, InventoryItemLore, loreText)
          else Handled(named.state, "", false);
        if lored.threw then ItemStep(lored.state, item, false, true)
        else
          var loreChanged := meta.lore.Some? && lored.text != loreText;
          var lore := if loreChanged then Some(NewLore(lored.text)) else meta.lore;
          ItemStep(lored.state, WithMeta(Meta(name, lore)), nameChanged || loreChanged, false)
  }

  /**
   * What the loop body makes of an item with meta. It throws exactly when
   * its name's or (on the state the name left) its lore's handling throws.
   * Otherwise the name is its handled text, the lore is the handled text of
   * its joined lines split again when that text differs, and `changed` says
   * exactly that one of the two texts differs.
   */
  lemma HandleItemResult(s: State, env: Env, viewer: Viewer, item: Item)
    requires item.WithMeta?
    ensures var r := HandleItem(s, env, viewer, item); var meta := item.meta; var ns := NameState(s, env, viewer, meta);
      var original := if meta.lore.Some? then Join(meta.lore.value, LoreSeparator) else "";
      var shown := HandleText(ns, env, viewer, InventoryItemLore, original).text;
      && (r.threw <==> NameThrows(s, env, viewer, meta) || (meta.lore.Some? && HandleText(ns, env, viewer, InventoryItemLore, original).threw))
      && (!r.threw ==> r.item.WithMeta?)
      && (!r.threw ==> r.item.meta.name == (if meta.name.Some? then Some(HandleText(s, env, viewer, InventoryItemName, meta.name.value).text) else None))
      && (!r.threw ==> r.item.meta.lore == (if meta.lore.Some? && shown != original then Some(NewLore(shown)) else meta.lore))
      && (!r.threw ==>
           (r.changed <==>
             (meta.name.Some? && HandleText(s, env, viewer, InventoryItemName, meta.name.value).text != meta.name.value)
             || (meta.lore.Some? && shown != original)))
  {
  }

  /**
   * The result of the loop: the state, the items as they now are, the
   * `update` flag, and whether some item's handling threw (which ends the loop).
   */
  datatype ItemsResult = ItemsResult(state: State, items: seq<Item>, update: bool, threw: bool)

  /** The loop over the items, in order, threading the caches through. */
  function HandleItems(s: State, env: Env, viewer: Viewer, items: seq<Item>): (r: ItemsResult)
    ensures |r.items| == |items|
    ensures !r.update ==> r.items == items
    ensures forall k :: 0 <= k < |items| && !items[k].WithMeta? ==> r.items[k] == items[k]
    ensures r.state.edits == s.edits && r.state.sessions == s.sessions && r.state.analyzing == s.analyzing
    decreases |items|
  {
    if items == [] then ItemsResult(s, [], false, false)
    else
      var first := HandleItem(s, env, viewer, items[0]);
      if first.threw then ItemsResult(first.state, items, false, true)
      else
        var rest := HandleItems(first.state, env, viewer, items[1..]);
        ConsItems(items, first.item, rest.items);
        ItemsResult(rest.state, [first.item] + rest.items, first.changed || rest.update, rest.threw)
  }

  lemma ConsItems(items: seq<Item>, head: Item, tail: seq<Item>)
    requires |items| > 0 && |tail| == |items| - 1
    ensures head == items[0] && tail == items[1..] ==> [head] + tail == items
    ensures forall k :: 1 <= k < |items| ==> ([head] + tail)[k] == tail[k - 1] && items[k] == items[1..][k - 1]
    ensures ([head] + tail)[0] == head
  {
  }

  /**
   * The loop over `a + b` is the loop over `a` continued over `b` from the
   * state `a` left; a throw within `a` ends it, leaving `b` as it was.
   */
  lemma {:induction false} HandleItemsAppend(s: State, env: Env, viewer: Viewer, a: seq<Item>, b: seq<Item>)
    ensures var ra := HandleItems(s, env, viewer, a);
      var rb := HandleItems(ra.state, env, viewer, b);
      HandleItems(s, env, viewer, a + b)
        == if ra.threw then ItemsResult(ra.state, ra.items + b, ra.update, true)
           else ItemsResult(rb.state, ra.items + rb.items, ra.update || rb.update, rb.threw)
    decreases |a|
  {
    if a == [] {
      assert a + b == b;
    } else {
      assert (a + b)[0] == a[0] && (a + b)[1..] == a[1..] + b;
      var first := HandleItem(s, env, viewer, a[0]);
      if !first.threw {
        HandleItemsAppend(first.state, env, viewer, a[1..], b);
        var rest := HandleItems(first.state, env, viewer, a[1..]);
        var rb := HandleItems(rest.state, env, viewer, b);
        Regroup([first.item], rest.items, b);
        Regroup([first.item], rest.items, rb.items);
      }
    }
  }

  lemma Regroup(x: seq<Item>, y: seq<Item>, z: seq<Item>)
    ensures x + (y + z) == (x + y) + z
  {
  }

  /**
   * Item `k` of the loop's result: when nothing before it threw, it is the
   * item `HandleItem` makes of it on the state the earlier items left, and
   * when that item changed, the loop's `update` is set.
   */
  lemma {:induction false} HandleItemsAt(s: State, env: Env, viewer: Viewer, items: seq<Item>, k: nat)
    requires k < |items|
    ensures var before := HandleItems(s, env, viewer, items[..k]);
      var step := HandleItem(before.state, env, viewer, items[k]);
      var r := HandleItems(s, env, viewer, items);
      !before.threw && !step.threw ==> r.items[k] == step.item && (step.changed ==> r.update)
  {
    var before := HandleItems(s, env, viewer, items[..k]);
    assert items == items[..k] + items[k..];
    HandleItemsAppend(s, env, viewer, items[..k], items[k..]);
    assert items[k..][0] == items[k];
  }

  /** Item `k` is reached without an earlier throw, and its name or lore text changes. */
  predicate ChangedAt(s: State, env: Env, viewer: Viewer, items: seq<Item>, k: nat)
    requires k < |items|
  {
    var before := HandleItems(s, env, viewer, items[..k]);
    !before.threw && HandleItem(before.state, env, viewer, items[k]).changed
  }

  /**
   * The loop sets `update` exactly when some item, reached without an
   * earlier throw, had its name or lore text changed.
   */
  lemma HandleItemsUpdate(s: State, env: Env, viewer: Viewer, items: seq<Item>)
    ensures HandleItems(s, env, viewer, items).update <==> exists k :: 0 <= k < |items| && ChangedAt(s, env, viewer, items, k)
  {
    if HandleItems(s, env, viewer, items).update {
      UpdateHasChange(s, env, viewer, items);
    } else {
      ChangeHasUpdate(s, env, viewer, items);
    }
  }

  /** Without an update, no item reached without an earlier throw had its text changed. */
  lemma ChangeHasUpdate(s: State, env: Env, viewer: Viewer, items: seq<Item>)
    requires !HandleItems(s, env, viewer, items).update
    ensures forall k :: 0 <= k < |items| ==> !ChangedAt(s, env, viewer, items, k)
  {
    forall k | 0 <= k < |items|
      ensures !ChangedAt(s, env, viewer, items, k)
    {
      HandleItemsAt(s, env, viewer, items, k);
    }
  }

  /** An update comes from some item reached without an earlier throw whose text changed. */
  lemma {:induction false} UpdateHasChange(s: State, env: Env, viewer: Viewer, items: seq<Item>)
    requires HandleItems(s, env, viewer, items).update
    ensures exists k :: 0 <= k < |items| && ChangedAt(s, env, viewer, items, k)
    decreases |items|
  {
    var first := HandleItem(s, env, viewer, items[0]);
    assert items[..0] == [];
    if !first.changed {
      var rest := items[1..];
      UpdateHasChange(first.state, env, viewer, rest);
      var j :| 0 <= j < |rest| && ChangedAt(first.state, env, viewer, rest, j);
      PrefixAfterFirst(s, env, viewer, items, j);
      assert ChangedAt(s, env, viewer, items, j + 1);
    } else {
      assert ChangedAt(s, env, viewer, items, 0);
    }
  }

  /** The loop over the first `j + 1` items, once the first did not throw, continues from the state it left. */
  lemma PrefixAfterFirst(s: State, env: Env, viewer: Viewer, items: seq<Item>, j: nat)
    requires j < |items| - 1 && !HandleItem(s, env, viewer, items[0]).threw
    ensures var first := HandleItem(s, env, viewer, items[0]);
      var before := HandleItems(s, env, viewer, items[..j + 1]);
      before.state == HandleItems(first.state, env, viewer, items[1..][..j]).state
      && before.threw == HandleItems(first.state, env, viewer, items[1..][..j]).threw
      && items[j + 1] == items[1..][j]
  {
    assert items[..j + 1] == [items[0]] + items[1..][..j];
    HandleItemsAppend(s, env, viewer, [items[0]], items[1..][..j]);
    assert [items[0]][1..] == [];
  }

  /** The outcome: the state, and the items of the packet sent again a tick later, if any. */
  datatype ItemsEffect = ItemsEffect(state: State, resend: Option<seq<Item>>)

  /**
   * `InventoryItemsPacketListener.onPacketSending`. The event's own packet is
   * never replaced; the copy with the updated items is sent again only when
   * some name or lore changed and no `replaceAll` threw.
   */
  function OnItems(s: State, env: Env, viewer: Viewer, cancelled: bool, packet: ItemsPacket): (r: ItemsEffect)
    ensures cancelled ==> r == ItemsEffect(s, None)
    ensures !cancelled ==> var result := HandleItems(s, env, viewer, ItemsOf(packet));
      r.resend.Some? <==> result.update && !result.threw
    ensures r.resend.Some? ==> |r.resend.value| == |ItemsOf(packet)|
  {
    if cancelled then ItemsEffect(s, None)
    else
      var result := HandleItems(s, env, viewer, ItemsOf(packet));
      ItemsEffect(result.state, if result.update && !result.threw then Some(result.items) else None)
  }

  /** Name edits are looked up at the item-name place only, lore edits at the item-lore place only. */
  lemma ItemPlaceFilters(s: State, env: Env, viewer: Viewer, meta: Meta)
    requires meta.name.Some? && meta.name.value !in s.cache
    requires forall j :: 0 <= j < |s.edits| ==> !Admits(s.edits[j], InventoryItemName)
    ensures HandleText(s, env, viewer, InventoryItemName, meta.name.value).text
         == (if env.lib.isJson(meta.name.value) then env.lib.legacyText(meta.name.value) else meta.name.value)
  {
  }

  /**
   * A lore whose rewritten text joins lines without separators inside them,
   * the last one non-empty, becomes exactly those lines.
   */
  lemma LoreRoundTrip(lines: seq<string>)
    requires |lines| >= 1 && lines[|lines| - 1] != ""
    requires CleanPieces(lines, LoreSeparator)
    ensures NewLore(Join(lines, LoreSeparator)) == lines
  {
    JavaSplitJoin(lines, LoreSeparator);
  }

  /**
   * Trailing empty lines do not survive a rewrite: a rewritten text that ends
   * in the separator loses its last, empty line.
   */
  lemma LoreLosesTrailingEmptyLine()
    ensures NewLore("a" + LoreSeparator) == ["a"]
  {
    var t := "a" + LoreSeparator;
    assert t == ['a', '\\', 'n'];
    assert t[0..2][0] == 'a';
    assert FirstOccurrence(t, LoreSeparator, 1);
    assert IndexOf(t, LoreSeparator) == Some(1);
    assert t[..1] == "a" && t[3..] == "";
    assert IndexOf("", LoreSeparator).None?;
    assert SplitAll(t, LoreSeparator) == ["a", ""];
    assert ["a", ""][..1] == ["a"];
    assert StripTrailingEmpty(["a", ""]) == StripTrailingEmpty(["a"]) == ["a"];
  }

  /**
   * `update` records that a text changed, not that an item did: a lore ["a"]
   * whose text is rewritten to "a" followed by the separator is flagged, yet
   * splitting the new text gives ["a"] back.
   */
  lemma ChangedTextSameLore(s: State, env: Env, viewer: Viewer)
    requires "a" in s.cache && s.cache["a"].after == "a" + LoreSeparator
    requires !env.lib.isJson("a" + LoreSeparator)
    ensures var item := WithMeta(Meta(None, Some(["a"])));
      var r := HandleItem(s, env, viewer, item);
      r.changed && r.item == item
  {
    assert Join(["a"], LoreSeparator) == "a";
    LoreLosesTrailingEmptyLine();
  }
}
