/**
 * The message places: the kinds of player-visible text the plugin can
 * rewrite, with the packet each one travels in and the lookups from a name,
 * a packet type, a chat-type byte and a chat-type enum constant.
 */
module Places {
  import opened Wrappers
  import opened Strings
  import opened Versions

  /** The outbound packet types the places are bound to; any other type is `OtherType`. */
  datatype PacketType =
    | Chat | KickDisconnect | LoginDisconnect | Boss | ScoreboardObjective | ScoreboardScore
    | OpenWindow | WindowItems | EntityMetadata | OtherType(code: nat)

  /** ProtocolLib's `EnumWrappers.ChatType`; only three constants are bound to places. */
  datatype ChatType = ChatMessage | SystemMessage | GameInfo | OtherChatType(code: nat)

  /** The twelve places, declared in this order. */
  datatype Place =
    | GameChat | SystemChat | ActionBar | Kick | Disconnect | BossBar
    | ScoreboardTitle | ScoreboardEntry | InventoryTitle | InventoryItemName
    | InventoryItemLore | EntityName

  /** Declaration order; every lookup returns the first place in this order that fits. */
  const AllPlaces: seq<Place> := [
    GameChat, SystemChat, ActionBar, Kick, Disconnect, BossBar,
    ScoreboardTitle, ScoreboardEntry, InventoryTitle, InventoryItemName,
    InventoryItemLore, EntityName
  ]

  /** The position of `p` in declaration order (`p.ordinal()`). */
  function Ordinal(p: Place): (r: nat)
    ensures r < |AllPlaces| && AllPlaces[r] == p
  {
    match p
    case GameChat => 0
    case SystemChat => 1
    case ActionBar => 2
    case Kick => 3
    case Disconnect => 4
    case BossBar => 5
    case ScoreboardTitle => 6
    case ScoreboardEntry => 7
    case InventoryTitle => 8
    case InventoryItemName => 9
    case InventoryItemLore => 10
    case EntityName => 11
  }

  /** The enum constant's name, `p.name()`. */
  function Name(p: Place): string {
    match p
    case GameChat => "GAME_CHAT"
    case SystemChat => "SYSTEM_CHAT"
    case ActionBar => "ACTION_BAR"
    case Kick => "KICK"
    case Disconnect => "DISCONNECT"
    case BossBar => "BOSS_BAR"
    case ScoreboardTitle => "SCOREBOARD_TITLE"
    case ScoreboardEntry => "SCOREBOARD_ENTRY"
    case InventoryTitle => "INVENTORY_TITLE"
    case InventoryItemName => "INVENTORY_ITEM_NAME"
    case InventoryItemLore => "INVENTORY_ITEM_LORE"
    case EntityName => "ENTITY_NAME"
  }

  /** The short id that starts every message id of this place. */
  function Id(p: Place): string {
    match p
    case GameChat => "GC"
    case SystemChat => "SC"
    case ActionBar => "AB"
    case Kick => "K"
    case Disconnect => "D"
    case BossBar => "BB"
    case ScoreboardTitle => "ST"
    case ScoreboardEntry => "SE"
    case InventoryTitle => "IT"
    case InventoryItemName => "ITN"
    case InventoryItemLore => "ITL"
    case EntityName => "EN"
  }

  function FriendlyName(p: Place): string {
    match p
    case GameChat => "Game Chat"
    case SystemChat => "System Chat"
    case ActionBar => "Action Bar"
    case Kick => "Kick"
    case Disconnect => "Disconnect"
    case BossBar => "Boss Bar"
    case ScoreboardTitle => "Scoreboard Title"
    case ScoreboardEntry => "Scoreboard Entry"
    case InventoryTitle => "Inventory Title"
    case InventoryItemName => "Inventory Item Name"
    case InventoryItemLore => "Inventory Item Lore"
    case EntityName => "Entity Name"
  }

  function MinimumVersion(p: Place): Version {
    if p == BossBar then CombatUpdate else BountifulUpdate
  }

  function PacketTypeOf(p: Place): PacketType {
    match p
    case GameChat | SystemChat | ActionBar => Chat
    case Kick => KickDisconnect
    case Disconnect => LoginDisconnect
    case BossBar => Boss
    case ScoreboardTitle => ScoreboardObjective
    case ScoreboardEntry => ScoreboardScore
    case InventoryTitle => OpenWindow
    case InventoryItemName | InventoryItemLore => WindowItems
    case EntityName => EntityMetadata
  }

  /** The chat-type byte of the three chat places; `None` stands for Java's `null`. */
  function ChatByte(p: Place): Option<int> {
    match p
    case GameChat => Some(0)
    case SystemChat => Some(1)
    case ActionBar => Some(2)
    case _ => None
  }

  function ChatEnum(p: Place): Option<ChatType> {
    match p
    case GameChat => Some(ChatMessage)
    case SystemChat => Some(SystemMessage)
    case ActionBar => Some(GameInfo)
    case _ => None
  }

  predicate IsChatPlace(p: Place) {
    p == GameChat || p == SystemChat || p == ActionBar
  }

  /** `isSupported()`: fixed when the enum is loaded, from the running server's version. */
  predicate Supported(p: Place, server: Version) {
    AtOrAbove(server, MinimumVersion(p))
  }

  // ---------------------------------------------------------------------------
  // Lookups: the first place in declaration order that passes a filter
  // ---------------------------------------------------------------------------

  /** The stream filters of the four static lookups. */
  datatype Query =
    | ByName(name: string)
    | ByType(t: PacketType)
    | ByByte(t: PacketType, b: int)
    | ByEnum(t: PacketType, e: Option<ChatType>)
    | ByLegacyName(name: string)

  /** `place.name().equalsIgnoreCase(name) || place.friendlyName.equalsIgnoreCase(name)`. */
  predicate NameMatches(p: Place, name: string) {
    EqualsIgnoreCase(Name(p), name) || EqualsIgnoreCase(FriendlyName(p), name)
  }

  predicate Fits(query: Query, p: Place) {
    match query
    case ByName(name) => NameMatches(p, name)
    case ByType(t) => PacketTypeOf(p) == t
    case ByByte(t, b) => PacketTypeOf(p) == t && ChatByte(p) == Some(b)
    case ByEnum(t, e) => PacketTypeOf(p) == t && e.Some? && ChatEnum(p) == e
    case ByLegacyName(name) => IsLegacyPlace(p) && EqualsIgnoreCase(Name(p), name)
  }

  /** The place declared at position `k`, if any (`VALUES[k]`). */
  function PlaceAt(k: nat): (r: Option<Place>)
    ensures r.Some? <==> k < |AllPlaces|
    ensures r.Some? ==> Ordinal(r.value) == k
  {
    if k < |AllPlaces| then Some(AllPlaces[k]) else None
  }

  lemma PlaceAtOrdinal(p: Place)
    ensures PlaceAt(Ordinal(p)) == Some(p)
  {
  }

  /** The first place at or after position `k` that passes `query`. */
  function FirstFrom(query: Query, k: nat): (r: Option<Place>)
    ensures r.Some? ==> Fits(query, r.value) && k <= Ordinal(r.value)
    ensures r.Some? ==> forall q :: k <= Ordinal(q) < Ordinal(r.value) ==> !Fits(query, q)
    ensures r.None? ==> forall q :: k <= Ordinal(q) ==> !Fits(query, q)
    decreases |AllPlaces| - k
  {
    match PlaceAt(k)
    case None => None
    case Some(p) =>
      if Fits(query, p) then Some(p)
      else
        var r := FirstFrom(query, k + 1);
        assert forall q :: Ordinal(q) == k ==> q == p by {
          forall q | Ordinal(q) == k ensures q == p {
            PlaceAtOrdinal(q);
          }
        }
        r
  }

  /** `Arrays.stream(VALUES).filter(...).findFirst().orElse(null)`. */
  function FirstPlace(query: Query): (r: Option<Place>)
    ensures r.Some? ==> Fits(query, r.value)
    ensures r.Some? ==> forall q :: Ordinal(q) < Ordinal(r.value) ==> !Fits(query, q)
    ensures r.None? ==> forall q :: !Fits(query, q)
  {
    FirstFrom(query, 0)
  }

  /** Two filters that accept the same places find the same first place. */
  lemma {:induction false} FirstFromRespects(q1: Query, q2: Query, k: nat)
    requires forall p :: Fits(q1, p) == Fits(q2, p)
    ensures FirstFrom(q1, k) == FirstFrom(q2, k)
    decreases |AllPlaces| - k
  {
    if k < |AllPlaces| {
      FirstFromRespects(q1, q2, k + 1);
    }
  }

  /** The first place is determined by which place passes and which earlier ones do not. */
  lemma FirstPlaceIs(query: Query, p: Place)
    requires Fits(query, p)
    requires forall q :: Ordinal(q) < Ordinal(p) ==> !Fits(query, q)
    ensures FirstPlace(query) == Some(p)
  {
  }

  /** `fromName`: the first place whose enum name or friendly name equals `name`, ignoring case. */
  function FromName(name: string): (r: Option<Place>)
    ensures r.Some? ==> NameMatches(r.value, name)
    ensures r.Some? ==> forall q :: Ordinal(q) < Ordinal(r.value) ==> !NameMatches(q, name)
    ensures r.None? ==> forall q :: !NameMatches(q, name)
  {
    var r := FirstPlace(ByName(name));
    assert forall q :: Fits(ByName(name), q) == NameMatches(q, name);
    r
  }

  // ---------------------------------------------------------------------------
  // The six-place enum of the stored edits
  // ---------------------------------------------------------------------------

  /**
   * The places of the older enum that stored edits name their places by: the
   * first six, with the same enum names in the same order, and no friendly
   * names.
   */
  predicate IsLegacyPlace(p: Place) {
    Ordinal(p) < 6
  }

  /** That enum's `fromName`: the first of its places whose enum name equals `name`, ignoring case. */
  function LegacyFromName(name: string): (r: Option<Place>)
    ensures r.Some? ==> IsLegacyPlace(r.value) && EqualsIgnoreCase(Name(r.value), name)
    ensures r.Some? ==> forall q :: Ordinal(q) < Ordinal(r.value) ==> !EqualsIgnoreCase(Name(q), name)
    ensures r.None? ==> forall q :: IsLegacyPlace(q) ==> !EqualsIgnoreCase(Name(q), name)
  {
    FirstPlace(ByLegacyName(name))
  }

  /** The older lookup finds a legacy place by its enum name in any case. */
  lemma LegacyFromNameOfName(p: Place, name: string)
    requires IsLegacyPlace(p) && EqualsIgnoreCase(Name(p), name)
    ensures LegacyFromName(name) == Some(p)
  {
    forall q | Ordinal(q) < Ordinal(p) ensures !Fits(ByLegacyName(name), q) {
      if EqualsIgnoreCase(Name(q), name) {
        NamesDistinct(q, p);
      }
    }
    FirstPlaceIs(ByLegacyName(name), p);
  }

  /**
   * The older lookup is the newer one narrowed: it finds a place exactly when
   * the newer lookup finds a legacy place by its enum name, and then the same
   * place. Friendly names and the six later places are not found.
   */
  lemma LegacyFromNameNarrows(name: string)
    ensures LegacyFromName(name).Some? <==>
      FromName(name).Some? && IsLegacyPlace(FromName(name).value) && EqualsIgnoreCase(Name(FromName(name).value), name)
    ensures LegacyFromName(name).Some? ==> LegacyFromName(name) == FromName(name)
  {
    match LegacyFromName(name)
    case Some(p) =>
      FromNameIgnoresCase(Name(p), name);
      FromNameOfName(p);
    case None =>
  }

  /** A place of the newer enum only is not found by its name. */
  lemma LegacyRefusesLaterPlace(p: Place)
    requires !IsLegacyPlace(p)
    ensures LegacyFromName(Name(p)).None?
  {
    LegacyFromNameNarrows(Name(p));
    FromNameOfName(p);
  }

  /** `fromPacketType(type)`: the first place bound to `t`. */
  function FromPacketType(t: PacketType): (r: Option<Place>)
    ensures r.Some? ==> PacketTypeOf(r.value) == t
    ensures r.Some? ==> forall q :: Ordinal(q) < Ordinal(r.value) ==> PacketTypeOf(q) != t
    ensures r.None? ==> forall q :: PacketTypeOf(q) != t
  {
    FirstPlace(ByType(t))
  }

  /** `fromPacketType(type, byte)`: the place's chat byte must be non-null and equal. */
  function FromChatByte(t: PacketType, b: int): (r: Option<Place>)
    ensures r.Some? ==> PacketTypeOf(r.value) == t && ChatByte(r.value) == Some(b)
    ensures r.None? ==> forall q :: !(PacketTypeOf(q) == t && ChatByte(q) == Some(b))
  {
    FirstPlace(ByByte(t, b))
  }

  /** `fromPacketType(type, chatTypeEnum)`; a missing (null) chat type matches no place. */
  function FromChatEnum(t: PacketType, e: Option<ChatType>): (r: Option<Place>)
    ensures r.Some? ==> PacketTypeOf(r.value) == t && e.Some? && ChatEnum(r.value) == e
    ensures r.None? ==> forall q :: !(PacketTypeOf(q) == t && e.Some? && ChatEnum(q) == e)
  {
    FirstPlace(ByEnum(t, e))
  }

  /**
   * `fromPacket`: a non-chat packet is classified by its type alone; a chat
   * packet by its byte field when it has exactly one, else by its chat-type enum.
   */
  function FromPacket(t: PacketType, chatBytes: seq<int>, chatType: Option<ChatType>): (r: Option<Place>)
    ensures t != Chat ==> r == FromPacketType(t)
    ensures t == Chat && |chatBytes| == 1 ==> r == FromChatByte(t, chatBytes[0])
    ensures t == Chat && |chatBytes| != 1 ==> r == FromChatEnum(t, chatType)
  {
    if t != Chat then FromPacketType(t)
    else if |chatBytes| == 1 then FromChatByte(t, chatBytes[0])
    else FromChatEnum(t, chatType)
  }

  // ---------------------------------------------------------------------------
  // Properties of the tables
  // ---------------------------------------------------------------------------

  /** The enum name of a place resolves back to that place. */
  lemma FromNameOfName(p: Place)
    ensures FromName(Name(p)) == Some(p)
  {
    forall q | Ordinal(q) < Ordinal(p) ensures !NameMatches(q, Name(p)) {
      NamesDistinct(q, p);
    }
    FirstPlaceIs(ByName(Name(p)), p);
  }

  /** So does its friendly name. */
  lemma FromNameOfFriendlyName(p: Place)
    ensures FromName(FriendlyName(p)) == Some(p)
  {
    forall q | Ordinal(q) < Ordinal(p) ensures !NameMatches(q, FriendlyName(p)) {
      NamesDistinct(q, p);
    }
    FirstPlaceIs(ByName(FriendlyName(p)), p);
  }

  /** Length, first letter and sixteenth letter, upper-cased: enough to tell the places' names apart. */
  function Signature(s: string): (int, char, char) {
    (|s|, if |s| > 0 then UpperAscii(s[0]) else ' ', if |s| > 15 then UpperAscii(s[15]) else ' ')
  }

  lemma SignatureIgnoresCase(a: string, b: string)
    requires EqualsIgnoreCase(a, b)
    ensures Signature(a) == Signature(b)
  {
    if |a| > 0 {
      assert ToUpper(a)[0] == ToUpper(b)[0];
    }
    if |a| > 15 {
      assert ToUpper(a)[15] == ToUpper(b)[15];
    }
  }

  /** No name or friendly name of one place equals, ignoring case, one of another place. */
  lemma NamesDistinct(q: Place, p: Place)
    requires q != p
    ensures !NameMatches(q, Name(p)) && !NameMatches(q, FriendlyName(p))
  {
    if NameMatches(q, Name(p)) || NameMatches(q, FriendlyName(p)) {
      if EqualsIgnoreCase(Name(q), Name(p)) {
        SignatureIgnoresCase(Name(q), Name(p));
      } else if EqualsIgnoreCase(FriendlyName(q), Name(p)) {
        SignatureIgnoresCase(FriendlyName(q), Name(p));
      } else if EqualsIgnoreCase(Name(q), FriendlyName(p)) {
        SignatureIgnoresCase(Name(q), FriendlyName(p));
      } else {
        SignatureIgnoresCase(FriendlyName(q), FriendlyName(p));
      }
      SignaturesDistinct(q, p);
    }
  }

  lemma SignaturesDistinct(q: Place, p: Place)
    requires q != p
    ensures Signature(Name(q)) != Signature(Name(p))
    ensures Signature(FriendlyName(q)) != Signature(Name(p))
    ensures Signature(Name(q)) != Signature(FriendlyName(p))
    ensures Signature(FriendlyName(q)) != Signature(FriendlyName(p))
  {
    var sq, sp := Signatures(q), Signatures(p);
    match q
    case GameChat =>
    case SystemChat =>
    case ActionBar =>
    case Kick =>
    case Disconnect =>
    case BossBar =>
    case ScoreboardTitle =>
    case ScoreboardEntry =>
    case InventoryTitle =>
    case InventoryItemName =>
    case InventoryItemLore =>
    case EntityName =>
  }

  /** The signatures of a place's name and friendly name, computed once per place. */
  function Signatures(p: Place): (r: ((int, char, char), (int, char, char)))
    ensures r == (Signature(Name(p)), Signature(FriendlyName(p)))
  {
    match p
    case GameChat => ((9, 'G', ' '), (9, 'G', ' '))
    case SystemChat => ((11, 'S', ' '), (11, 'S', ' '))
    case ActionBar => ((10, 'A', ' '), (10, 'A', ' '))
    case Kick => ((4, 'K', ' '), (4, 'K', ' '))
    case Disconnect => ((10, 'D', ' '), (10, 'D', ' '))
    case BossBar => ((8, 'B', ' '), (8, 'B', ' '))
    case ScoreboardTitle => ((16, 'S', 'E'), (16, 'S', 'E'))
    case ScoreboardEntry => ((16, 'S', 'Y'), (16, 'S', 'Y'))
    case InventoryTitle => ((15, 'I', ' '), (15, 'I', ' '))
    case InventoryItemName => ((19, 'I', 'N'), (19, 'I', 'N'))
    case InventoryItemLore => ((19, 'I', 'L'), (19, 'I', 'L'))
    case EntityName => ((11, 'E', ' '), (11, 'E', ' '))
  }

  /** A lookup by name ignores case. */
  lemma FromNameIgnoresCase(a: string, b: string)
    requires EqualsIgnoreCase(a, b)
    ensures FromName(a) == FromName(b)
  {
    FirstFromRespects(ByName(a), ByName(b), 0);
  }

  /** The twelve ids are pairwise distinct... */
  lemma IdsDistinct(p: Place, q: Place)
    ensures Id(p) == Id(q) ==> p == q
  {
  }

  /** ...but one is a proper prefix of two others. */
  lemma IdPrefixes()
    ensures StartsWith(Id(InventoryItemName), Id(InventoryTitle))
    ensures StartsWith(Id(InventoryItemLore), Id(InventoryTitle))
  {
  }

  /** Every place but the boss bar needs the Bountiful Update; the boss bar needs the Combat Update. */
  lemma SupportedVersions(p: Place, server: Version)
    ensures Supported(p, server) <==> AtOrAbove(server, if p == BossBar then CombatUpdate else BountifulUpdate)
    ensures Supported(BossBar, server) ==> Supported(p, server)
  {
  }

  /** A packet type resolves to its first bound place: CHAT to game chat, WINDOW_ITEMS to item names. */
  lemma FromPacketTypeShared(n: nat)
    ensures FromPacketType(Chat) == Some(GameChat)
    ensures FromPacketType(WindowItems) == Some(InventoryItemName)
    ensures FromPacketType(OtherType(n)) == None
  {
    FirstPlaceIs(ByType(Chat), GameChat);
    ItemNameBeforeLore();
    UnknownTypeUnbound(n);
  }

  lemma ItemNameBeforeLore()
    ensures FromPacketType(WindowItems) == Some(InventoryItemName)
  {
    forall q | Ordinal(q) < Ordinal(InventoryItemName) ensures !Fits(ByType(WindowItems), q) {
      assert q != InventoryItemName && q != InventoryItemLore;
    }
    FirstPlaceIs(ByType(WindowItems), InventoryItemName);
  }

  lemma UnknownTypeUnbound(n: nat)
    ensures FromPacketType(OtherType(n)) == None
  {
    var r := FromPacketType(OtherType(n));
    if r.Some? {
      PacketTypeKnown(r.value);
    }
  }

  lemma PacketTypeKnown(p: Place)
    ensures !PacketTypeOf(p).OtherType?
  {
  }

  /** Every other place is the only one bound to its packet type, so it is found by type. */
  lemma FromPacketTypeOwn(p: Place)
    requires p !in {SystemChat, ActionBar, InventoryItemLore}
    ensures FromPacketType(PacketTypeOf(p)) == Some(p)
  {
    FirstPlaceIs(ByType(PacketTypeOf(p)), p);
  }

  /** Chat bytes 0, 1 and 2 are game chat, system chat and action bar; nothing else resolves. */
  lemma FromChatByteTable(t: PacketType, b: int)
    ensures FromChatByte(t, b) == if t == Chat && 0 <= b <= 2 then Some([GameChat, SystemChat, ActionBar][b]) else None
  {
  }

  lemma FromChatEnumTable(t: PacketType, e: Option<ChatType>)
    ensures FromChatEnum(t, e) == if t != Chat || e.None? then None else match e.value
      case ChatMessage => Some(GameChat)
      case SystemMessage => Some(SystemChat)
      case GameInfo => Some(ActionBar)
      case OtherChatType(_) => None
  {
  }

  /** Only the three chat places have a chat type; for them byte and enum lookups agree. */
  lemma ChatLookupsAgree(p: Place)
    ensures ChatByte(p).Some? <==> IsChatPlace(p)
    ensures IsChatPlace(p) ==> FromChatByte(Chat, ChatByte(p).value) == Some(p)
    ensures IsChatPlace(p) ==> FromChatEnum(Chat, ChatEnum(p)) == Some(p)
  {
  }
}
