# Message Editor, modelled in Dafny

Message Editor is a Bukkit/Spigot server plugin. It watches the packets the
server sends to players: chat, system chat, action bar, kick and disconnect
screens, boss bars, scoreboard titles and entries, inventory titles, and item
names and lore. It rewrites their text using a list of *message edits*. An
edit pairs a regular expression for the old text (optionally restricted to
one *message place*) with a replacement text (optionally moving the message to
another chat place). The plugin remembers every text it shows under a short
*message id*. A player can open an in-game menu for an id, rework the old
pattern and the new text through chat prompts, and save the result as a new
edit.

This project models that core as pure functions over immutable data, and
proves what each operation promises. Each module follows one part of the
program:

- `Places`: the twelve message places, their ids, friendly names, minimum
  server versions and packet types. Also the lookups by name, by packet type,
  by chat byte and by chat-type enum.
- `Edits`: a message edit, its matcher, and its serialisation to and from
  the configuration map.
- `EditData`: the data recorded about a shown message, and the editing
  session (`MessageEditData`), including the escaping of a message into a
  pattern that matches it literally.
- `MessageUtils`: message ids (`generateId`), and `getLastColors`, which
  finds the colour codes a line of text ends with.
- `Replacement`: how `Matcher.replaceAll` reads a replacement text, and the
  escaping the editor applies to a new message before saving it.
- `Plugin`: plugin state (edits, the message cache, the message-data cache,
  sessions and analysed places), start-up, reload, and the cache and session
  accessors.
- `Rewrite`: choosing the first edit that fires and computing the new text,
  plus the message cache.
- `Listeners`: the common packet listener and the boss bar, scoreboard title
  and chat listeners.
- `ItemsListener`: the inventory items listener.
- `Menu`: the menu layout, the wrapping and colouring of message lore, and
  the five menu items.
- `ChatSession`: the chat prompts of an editing session.
- `ClickSession`: the menu clicks.
- `Command`: the `/message-editor` command and its tab completion.
- `Updater`: the update check.

`Versions` orders Minecraft versions (`MinecraftVersion` of ProtocolLib,
which is not part of this model). `Strings` models the Java string operations
the program relies on, including `String.split`, which drops trailing empty
strings. `Externals` gathers what the model treats as given functions. These
are the regular-expression engine (compile, full match, group count,
`replaceAll`), colour translation, the JSON check, conversion of JSON to
legacy text, the hex colour lookup and the two placeholder plugins.

Where two versions of a class exist, the model follows the one in
`dev/jaqobb/message_editor`. Three parts come from the older
`dev/jaqobb/messageeditor` package: the place enum, the `MessageEdit` class
and the scoreboard title listener. The newer package has its own `MessageEdit`
and `MessagePlace`, which its listeners import, but those two classes are not
part of this model. The older classes stand in for them:
`Edits.Edit` stands for the edit the listeners use, and
`Places.Place` for the twelve-place enum. The stored form of an edit follows
`messageeditor/data/edit/MessageEdit`, which resolves place names through
`messageeditor/data/place/MessagePlace`. That enum has only the first six
places, and its `fromName` accepts the enum name only, in any letter case:
`Places.LegacyFromName`. `Places.FromName`, which also accepts friendly
names and knows all twelve places, serves the commands and the chat prompts.
The two agree on the enum names of the six stored places, which is what the
round trip `Edits.DeserializeSerialize` depends on.

## Model

| member | source | states |
|---|---|---|
| Places.Ordinal | src/main/java/dev/jaqobb/messageeditor/message/MessagePlace.java:266 | every place has a position in `VALUES`, and that position holds exactly that place |
| Places.PlaceAt | src/main/java/dev/jaqobb/messageeditor/message/MessagePlace.java:266 | positions below the number of places, and only those, hold a place, and the place held has that position as its ordinal |
| Places.PlaceAtOrdinal | src/main/java/dev/jaqobb/messageeditor/message/MessagePlace.java:266 | reading `VALUES` at a place's ordinal gives the place back |
| Places.FirstFrom | src/main/java/dev/jaqobb/messageeditor/message/MessagePlace.java:348-353 | a stream `findFirst` over `VALUES` from position k: the result passes the filter and no earlier place from k does; nothing is found only when no place from k passes |
| Places.FirstPlace | src/main/java/dev/jaqobb/messageeditor/message/MessagePlace.java:349-352 | the first place in declaration order that passes the filter, and nothing when no place passes |
| Places.FirstFromRespects | src/main/java/dev/jaqobb/messageeditor/message/MessagePlace.java:365-386 | two filters that accept the same places find the same place |
| Places.FirstPlaceIs | src/main/java/dev/jaqobb/messageeditor/message/MessagePlace.java:349-352 | a place that passes the filter, with no earlier place passing, is the one found |
| Places.FromName | src/main/java/dev/jaqobb/messageeditor/message/MessagePlace.java:348-353 | the place found answers to the name, ignoring case, by its enum name or its friendly name, and no earlier place does; nothing is found only when no place answers |
| Places.FromPacketType | src/main/java/dev/jaqobb/messageeditor/message/MessagePlace.java:365-370 | the first place whose packet type is the one given; nothing when no place has it |
| Places.FromChatByte | src/main/java/dev/jaqobb/messageeditor/message/MessagePlace.java:372-378 | a place of that packet type whose chat byte equals the byte; places without a chat byte never match |
| Places.FromChatEnum | src/main/java/dev/jaqobb/messageeditor/message/MessagePlace.java:380-386 | a place of that packet type whose chat-type enum equals the one read; a missing enum matches nothing |
| Places.FromPacket | src/main/java/dev/jaqobb/messageeditor/message/MessagePlace.java:355-363 | a non-chat packet is looked up by type; a chat packet with exactly one byte field is looked up by that byte, any other chat packet by its chat-type enum |
| Places.FromNameOfName | src/main/java/dev/jaqobb/messageeditor/message/MessagePlace.java:42-223 | looking up a place's enum name gives that place back, for all twelve places |
| Places.FromNameOfFriendlyName | src/main/java/dev/jaqobb/messageeditor/message/MessagePlace.java:42-223 | looking up a place's friendly name gives that place back |
| Places.NamesDistinct | src/main/java/dev/jaqobb/messageeditor/message/MessagePlace.java:42-223 | no place answers to another place's enum name or friendly name, even ignoring case |
| Places.FromNameIgnoresCase | src/main/java/dev/jaqobb/messageeditor/message/MessagePlace.java:350 | names that differ only in letter case find the same place |
| Places.IdsDistinct | src/main/java/dev/jaqobb/messageeditor/message/MessagePlace.java:42-223 | the twelve id prefixes are pairwise different |
| Places.IdPrefixes | src/main/java/dev/jaqobb/messageeditor/message/MessagePlace.java:182-223 | the item-name and item-lore ids begin with the inventory-title id, so ids alone do not tell those places apart |
| Places.SupportedVersions | src/main/java/dev/jaqobb/messageeditor/message/MessagePlace.java:294-302 | a place is supported exactly when the server is at or above 1.8 (1.9 for the boss bar); a server that supports the boss bar supports every place |
| Places.FromPacketTypeShared | src/main/java/dev/jaqobb/messageeditor/message/MessagePlace.java:365-370 | a chat packet type alone finds game chat, the window-items type finds the item name (declared before the lore), and unknown types find nothing |
| Places.FromPacketTypeOwn | src/main/java/dev/jaqobb/messageeditor/message/MessagePlace.java:365-370 | every place that does not share its packet type with an earlier place is found again from that type |
| Places.FromChatByteTable | src/main/java/dev/jaqobb/messageeditor/message/MessagePlace.java:372-378 | on a chat packet, bytes 0, 1 and 2 give game chat, system chat and action bar; every other byte or packet gives nothing |
| Places.FromChatEnumTable | src/main/java/dev/jaqobb/messageeditor/message/MessagePlace.java:380-386 | on a chat packet, the CHAT, SYSTEM and GAME_INFO enums give the three chat places, and anything else gives nothing |
| Places.ChatLookupsAgree | src/main/java/dev/jaqobb/messageeditor/message/MessagePlace.java:42-100 | exactly the three chat places carry a chat byte, and each is found again from its byte and from its enum |
| Places.LegacyFromName | src/main/java/dev/jaqobb/messageeditor/data/place/MessagePlace.java:93-98 | the stored-edit lookup finds the first of the six places whose enum name equals the name ignoring case, and nothing when none does; friendly names are not accepted |
| Places.LegacyFromNameOfName | src/main/java/dev/jaqobb/messageeditor/data/place/MessagePlace.java:93-98 | each of the six places is found again from its enum name in any letter case |
| Places.LegacyFromNameNarrows | src/main/java/dev/jaqobb/messageeditor/data/place/MessagePlace.java:36-98 | the six-place lookup finds a place exactly when the twelve-place lookup finds one of the six by its enum name, and then both give the same place |
| Places.LegacyRefusesLaterPlace | src/main/java/dev/jaqobb/messageeditor/data/place/MessagePlace.java:36-41 | the names of the six later places (scoreboard, inventory and entity places) find nothing in the six-place lookup |
| Edits.NewEdit | src/main/java/dev/jaqobb/messageeditor/data/edit/MessageEdit.java:43-48 | an edit exists exactly when its pattern compiles, and it keeps the pattern, both places and the new text it was given |
| Edits.GetMatcher | src/main/java/dev/jaqobb/messageeditor/data/edit/MessageEdit.java:70-76 | a matcher is returned exactly when the pattern matches the whole text, not a part of it |
| Edits.Serialize | src/main/java/dev/jaqobb/messageeditor/data/edit/MessageEdit.java:79-90 | the map holds the pattern; the new-text key is present exactly when there is a new text, and each place key exactly when that place is set, holding the place's enum name |
| Edits.PlaceEntry | src/main/java/dev/jaqobb/messageeditor/data/place/MessagePlace.java:93-98 | a missing place key gives no place; a present one gives a place of the six-place enum whose enum name equals the stored name ignoring case, and no place when none of the six has that name |
| Edits.Deserialize | src/main/java/dev/jaqobb/messageeditor/data/edit/MessageEdit.java:92-104 | an edit is read exactly when the pattern key is present and the pattern compiles; a missing new text is kept as absent; its places come from the place keys and are always among the six stored places |
| Edits.DeserializeSerialize | src/main/java/dev/jaqobb/messageeditor/data/edit/MessageEdit.java:79-104 | round trip: reading back a written edit whose places are among the six stored places gives the same edit |
| Edits.UnknownPlaceName | src/main/java/dev/jaqobb/messageeditor/data/edit/MessageEdit.java:95-97 | a place name that names no place is read as "any place" rather than refused |
| Edits.FriendlyNameNotStored | src/main/java/dev/jaqobb/messageeditor/data/place/MessagePlace.java:93-98 | a stored place written as the friendly name "Game Chat" reads as "any place", although the twelve-place lookup resolves it to game chat |
| Edits.ReplaceAll | src/main/java/dev/jaqobb/message_editor/listener/packet/CommonPacketListener.java:94 | an absent new text throws; when the engine throws only on malformed replacements, `replaceAll` after a full match succeeds exactly when the new text is a valid replacement for the pattern's groups |
| EditData.OnlyIdleInvalidates | src/main/java/dev/jaqobb/message_editor/message/MessageEditData.java:203-223 | only the idle mode lets the message cache be invalidated; all seven editing modes keep it |
| EditData.Escape | src/main/java/dev/jaqobb/message_editor/message/MessageEditData.java:77 | escaping adds exactly one backslash per regex-special character, and only the empty message gives the empty pattern |
| EditData.UnescapeEscape | src/main/java/dev/jaqobb/message_editor/message/MessageEditData.java:77 | round trip: removing the escapes from the pattern gives the message back, so the pattern spells the message literally |
| EditData.EscapePlain | src/main/java/dev/jaqobb/message_editor/MessageEditorConstants.java:41 | a message with none of the nineteen special characters is its own pattern |
| EditData.EscapeAppend | src/main/java/dev/jaqobb/message_editor/message/MessageEditData.java:77 | escaping a concatenation escapes each part on its own |
| EditData.NewSession | src/main/java/dev/jaqobb/message_editor/message/MessageEditData.java:62-89 | a new session holds the given messages, places and JSON flags as both current and original values; its pattern spells the old message literally; keys and the part cache are empty and the mode is idle |
| EditData.FromMessageData | src/main/java/dev/jaqobb/message_editor/message/MessageEditData.java:49-60 | a session opened on recorded data starts with identical old and new message, JSON flag and place, named after the message id |
| MessageUtils.CharactersSize | src/main/java/dev/jaqobb/message_editor/util/MessageUtils.java:49 | the id alphabet has 64 characters, so every value below 64 indexes it |
| MessageUtils.JavaHash | src/main/java/dev/jaqobb/message_editor/util/MessageUtils.java:79 | `String.hashCode` stays within 32-bit signed range; a character outside the Basic Multilingual Plane contributes its two surrogates |
| MessageUtils.JavaHashOfUnits | src/main/java/dev/jaqobb/message_editor/util/MessageUtils.java:79 | hashing character by character equals the `hashCode` loop over the UTF-16 code units |
| MessageUtils.SurrogatePairHash | src/main/java/dev/jaqobb/message_editor/util/MessageUtils.java:79 | the emoji U+1F600 hashes to 1772899, as its two surrogates do in Java |
| MessageUtils.HashDigits | src/main/java/dev/jaqobb/message_editor/util/MessageUtils.java:79 | the digit string has one to ten digits and denotes the hash when the hash is not negative, and minus twice the hash when it is |
| MessageUtils.Encode | src/main/java/dev/jaqobb/message_editor/util/MessageUtils.java:81-96 | every character of the id comes from the 64-character alphabet, and the digits are packed at most two to a character |
| MessageUtils.EncodePair | src/main/java/dev/jaqobb/message_editor/util/MessageUtils.java:84-92 | a digit pair becomes one character exactly when its two-digit value is below 64, and two otherwise |
| MessageUtils.GenerateId | src/main/java/dev/jaqobb/message_editor/util/MessageUtils.java:77-98 | an id is the place id followed by one to ten characters of the alphabet, computed from the UTF-16 hash of the message |
| MessageUtils.GenerateIdDependsOnHash | src/main/java/dev/jaqobb/message_editor/util/MessageUtils.java:79 | messages with the same hash get the same id at a place |
| MessageUtils.GenerateIdAgrees | src/main/java/dev/jaqobb/message_editor/util/MessageUtils.java:77-98 | for every message whose hash is not the least 32-bit integer, the code as written and the corrected id agree |
| MessageUtils.GenerateIdAsWrittenThrows | src/main/java/dev/jaqobb/message_editor/util/MessageUtils.java:79-96 | as written, the message "xfjfxtf" makes id generation index the alphabet at -4, which throws |
| MessageUtils.MinHashWitness | src/main/java/dev/jaqobb/message_editor/util/MessageUtils.java:79 | "xfjfxtf" hashes to the least 32-bit integer |
| MessageUtils.EncodeAsWrittenOnDigits | src/main/java/dev/jaqobb/message_editor/util/MessageUtils.java:81-96 | on a string of digits the loop as written never fails and computes the same id suffix |
| MessageUtils.IdsCollideAcrossPlaces | src/main/java/dev/jaqobb/message_editor/util/MessageUtils.java:77-98 | an inventory-title message and an item-name message can get the same id |
| MessageUtils.IdsCollideWithinPlace | src/main/java/dev/jaqobb/message_editor/util/MessageUtils.java:77-98 | two different messages at one place can get the same id, because different digit strings pack to the same characters |
| MessageUtils.GenerateIdAsWritten | src/main/java/dev/jaqobb/message_editor/util/MessageUtils.java:77-98 | as written, an id, when one is produced, is the place id followed by characters of the alphabet |
| MessageUtils.LastBreak | src/main/java/dev/jaqobb/message_editor/util/MessageUtils.java:100-136 | the last colour code (not a format code) at or before a position, and no later one up to that position |
| MessageUtils.ScanCollectsCodes | src/main/java/dev/jaqobb/message_editor/util/MessageUtils.java:100-136 | without hex colours, the backward scan collects exactly the codes from the last colour code onwards, in reading order |
| MessageUtils.LastColorsWithoutHex | src/main/java/dev/jaqobb/message_editor/util/MessageUtils.java:100-136 | the last colours of a line are its last colour code followed by every format code after it |
| MessageUtils.LastColorsEdgeCases | src/main/java/dev/jaqobb/message_editor/util/MessageUtils.java:100-136 | an empty line, a lone section sign and a section sign before a non-code character give no colours |
| MessageUtils.GetLastColors | src/main/java/dev/jaqobb/message_editor/util/MessageUtils.java:100-136 | a line without a section sign has no last colours |
| Replacement.TakeDigits | src/main/java/dev/jaqobb/message_editor/listener/player/PlayerInventoryClickListener.java:133-140 | the digits a group reference consumes are all digits, and the group number read never exceeds the group count |
| Replacement.ExpandFailsExactly | src/main/java/dev/jaqobb/message_editor/listener/packet/CommonPacketListener.java:94 | `replaceAll` throws on a replacement exactly when a `$` does not start a reference to an existing group or a backslash ends the text |
| Replacement.Quote | src/main/java/dev/jaqobb/message_editor/listener/player/PlayerInventoryClickListener.java:141-143 | quoting only adds backslashes |
| Replacement.ExpandQuote | src/main/java/dev/jaqobb/message_editor/listener/player/PlayerInventoryClickListener.java:141-143 | round trip: `replaceAll` with a quoted replacement inserts the text exactly as typed, whatever the groups |
| Replacement.DoubledIsReplace | src/main/java/dev/jaqobb/message_editor/listener/player/PlayerInventoryClickListener.java:132 | doubling every backslash is `replace("\\", "\\\\")`, and leaves text without backslashes alone |
| Replacement.ReplaceTwiceIsQuote | src/main/java/dev/jaqobb/message_editor/listener/player/PlayerInventoryClickListener.java:132-143 | doubling backslashes and then escaping every `$` is exactly `Matcher.quoteReplacement` |
| Replacement.SaveWithoutMatchIsLiteral | src/main/java/dev/jaqobb/message_editor/listener/player/PlayerInventoryClickListener.java:141-143 | when the pattern does not match the original message, the saved text is inserted literally |
| Replacement.LoneDollarThrows | src/main/java/dev/jaqobb/message_editor/listener/player/PlayerInventoryClickListener.java:132-140 | as written, the new message "5$" is saved unchanged, and `replaceAll` then fails on its trailing `$` |
| Replacement.SaveReplacement | src/main/java/dev/jaqobb/message_editor/listener/player/PlayerInventoryClickListener.java:132-143 | without a match the new message is quoted; with one, references to existing groups are kept and everything else is quoted |
| Replacement.KeepRefsExpands | src/main/java/dev/jaqobb/message_editor/listener/player/PlayerInventoryClickListener.java:133-140 | the corrected replacement is always accepted by `replaceAll`, for every message and group count |
| Replacement.KeepRefsLiteral | src/main/java/dev/jaqobb/message_editor/listener/player/PlayerInventoryClickListener.java:141-143 | a message without `$` is saved exactly as the quoted message |
| Replacement.KeptReference | src/main/java/dev/jaqobb/message_editor/listener/player/PlayerInventoryClickListener.java:133-140 | a kept `$n` still names an existing group after escaping, and escaping continues unchanged after it |
| Replacement.DoubledDigitPrefix | src/main/java/dev/jaqobb/message_editor/listener/player/PlayerInventoryClickListener.java:132-136 | doubling backslashes does not change which digit strings a message starts with |
| Replacement.SameReferences | src/main/java/dev/jaqobb/message_editor/listener/player/PlayerInventoryClickListener.java:133-136 | a message starts with a reference to an existing group before doubling exactly when it does after |
| Replacement.AsWrittenAgrees | src/main/java/dev/jaqobb/message_editor/listener/player/PlayerInventoryClickListener.java:132-143 | on every message whose every `$` is followed by a digit, the code as written and the corrected escaping save the same text |
| Replacement.EscapeRefsAsWritten | src/main/java/dev/jaqobb/message_editor/listener/player/PlayerInventoryClickListener.java:133-140 | as written, the escaping only adds characters, and text without `$` is left alone |
| Replacement.SaveReplacementAsWritten | src/main/java/dev/jaqobb/message_editor/listener/player/PlayerInventoryClickListener.java:132-143 | as written, the saved text is never shorter than the new message, and is the quoted message when the pattern does not match the original |
| Rewrite.FirstFiringFrom | src/main/java/dev/jaqobb/message_editor/listener/packet/CommonPacketListener.java:78-88 | the index of the first edit from k that admits the place and fully matches the text; none only when no edit from k fires |
| Rewrite.FirstFiring | src/main/java/dev/jaqobb/message_editor/listener/packet/CommonPacketListener.java:78-88 | the first edit, in list order, whose place admits the message and whose pattern matches it; none exactly when no edit fires |
| Rewrite.AppendedEditLast | src/main/java/dev/jaqobb/message_editor/MessageEditorPlugin.java:220-222 | an appended edit never overrides an earlier one: the first firing edit is the same, or the new one when none fired before |
| Rewrite.FirstIsUnique | src/main/java/dev/jaqobb/message_editor/listener/packet/CommonPacketListener.java:78-88 | any edit that fires with none before it firing is the one chosen |
| Rewrite.FreshFailsExactly | src/main/java/dev/jaqobb/message_editor/listener/packet/CommonPacketListener.java:94-99 | a fresh rewrite of a fully matched text throws exactly when the edit has no new text or its new text is not a valid replacement for the pattern's groups |
| Rewrite.Resolve | src/main/java/dev/jaqobb/message_editor/listener/packet/CommonPacketListener.java:74-99 | a cached text is answered from the cache; otherwise no edit means no change, and the first edit that fires gives either its fresh rewrite or, when its `replaceAll` throws, a throw |
| Rewrite.Remember | src/main/java/dev/jaqobb/message_editor/listener/packet/CommonPacketListener.java:94-99 | only a fresh rewrite is cached, under the old text; nothing else in the state changes |
| Rewrite.RememberShown | src/main/java/dev/jaqobb/message_editor/listener/packet/CommonPacketListener.java:103-105 | after showing a message, its id looks up exactly that message, place and JSON flag; nothing else changes |
| Rewrite.CacheIgnoresPlace | src/main/java/dev/jaqobb/message_editor/listener/packet/CommonPacketListener.java:74-77 | a cached text is rewritten the same way at every place, because the cache key is the text alone |
| Rewrite.ResolveRemembered | src/main/java/dev/jaqobb/message_editor/listener/packet/CommonPacketListener.java:74-99 | once a rewrite is remembered, the same text at any place is answered from the cache with the same new text |
| Plugin.LowestFromBounds | src/main/java/dev/jaqobb/message_editor/MessageEditorPlugin.java:93-99 | the version loop finds a lower bound of every place's minimum version, and that bound is one of them |
| Plugin.LowestFrom | src/main/java/dev/jaqobb/message_editor/MessageEditorPlugin.java:93-99 | the loop's result is the starting value or the minimum version of one of the places walked |
| Plugin.RequiredVersion | src/main/java/dev/jaqobb/message_editor/MessageEditorPlugin.java:93-99 | the required version is at or below every place's minimum version |
| Plugin.LowestOverAllPlaces | src/main/java/dev/jaqobb/message_editor/MessageEditorPlugin.java:93-99 | over all places, the loop's result bounds every minimum and is attained by some place |
| Plugin.RequiredIsBountiful | src/main/java/dev/jaqobb/message_editor/MessageEditorPlugin.java:93-106 | the plugin needs Minecraft 1.8 |
| Plugin.LowestIsBountiful | src/main/java/dev/jaqobb/message_editor/MessageEditorPlugin.java:93-99 | any version that bounds every minimum and is attained is 1.8, so the lowest version is unique |
| Plugin.LoadsIffSomePlaceSupported | src/main/java/dev/jaqobb/message_editor/MessageEditorPlugin.java:100-106 | the plugin stays enabled exactly when at least one place is supported on the server |
| Plugin.AcceptedFiles | src/main/java/dev/jaqobb/message_editor/MessageEditorPlugin.java:191-195 | only files ending in `.yml` and not starting with `#` are read, in listing order, and none is invented |
| Plugin.EditsOf | src/main/java/dev/jaqobb/message_editor/MessageEditorPlugin.java:196-200 | one edit per file, each read from that file's map |
| Plugin.LoadFiles | src/main/java/dev/jaqobb/message_editor/MessageEditorPlugin.java:191-201 | loading never yields more edits than there are files |
| Plugin.LoadFilesStops | src/main/java/dev/jaqobb/message_editor/MessageEditorPlugin.java:191-201 | an aborted load stops at the first read file whose edit cannot be built, keeping exactly the edits of the read files before it |
| Plugin.LoadFilesSkips | src/main/java/dev/jaqobb/message_editor/MessageEditorPlugin.java:191-195 | skipped files (other extensions, or names starting with `#`) count for nothing, as if absent |
| Plugin.LoadFilesComplete | src/main/java/dev/jaqobb/message_editor/MessageEditorPlugin.java:191-201 | loading completes exactly when every file holds a present, compiling pattern (a missing new text does not stop it), and then yields those edits in file order |
| Plugin.Reload | src/main/java/dev/jaqobb/message_editor/MessageEditorPlugin.java:178-202 | the configured edits come first, unchanged; an edits directory that cannot be created leaves only them |
| Plugin.ReloadAppends | src/main/java/dev/jaqobb/message_editor/MessageEditorPlugin.java:178-202 | with readable files, reload gives the configured edits followed by one edit per `.yml` file |
| Plugin.OnLoad | src/main/java/dev/jaqobb/message_editor/MessageEditorPlugin.java:92-123 | the plugin disables itself exactly when no place is supported; otherwise an edits file whose edit cannot be built throws out of `onLoad`, leaving only the edits read so far and no stores; otherwise it starts with empty caches, no sessions, no analysed place, and the configuration's edits followed by those of every read file |
| Plugin.AddEdit | src/main/java/dev/jaqobb/message_editor/MessageEditorPlugin.java:220-222 | the new edit goes last and the earlier edits keep their order; nothing else changes |
| Plugin.GetCached | src/main/java/dev/jaqobb/message_editor/MessageEditorPlugin.java:244-246 | the cache answers exactly for the texts it holds |
| Plugin.CacheMessage | src/main/java/dev/jaqobb/message_editor/MessageEditorPlugin.java:248-250 | caching adds one key and leaves the rest of the state alone |
| Plugin.Uncache | src/main/java/dev/jaqobb/message_editor/MessageEditorPlugin.java:252-254 | uncaching removes one key and leaves the rest of the state alone |
| Plugin.ClearCache | src/main/java/dev/jaqobb/message_editor/MessageEditorPlugin.java:256-258 | clearing empties the message cache only |
| Plugin.CacheThenGet | src/main/java/dev/jaqobb/message_editor/MessageEditorPlugin.java:244-250 | a cached text is read back as cached, and other texts read as before |
| Plugin.UncacheThenGet | src/main/java/dev/jaqobb/message_editor/MessageEditorPlugin.java:244-258 | an uncached or cleared text reads as absent, and other texts read as before |
| Plugin.GetData | src/main/java/dev/jaqobb/message_editor/MessageEditorPlugin.java:264-266 | the data cache answers exactly for the ids it holds |
| Plugin.CacheData | src/main/java/dev/jaqobb/message_editor/MessageEditorPlugin.java:268-270 | the cached id reads back the cached data; other ids and the rest of the state are untouched |
| Plugin.GetSession | src/main/java/dev/jaqobb/message_editor/MessageEditorPlugin.java:284-286 | a player's session is found exactly when one was set |
| Plugin.SetSession | src/main/java/dev/jaqobb/message_editor/MessageEditorPlugin.java:288-290 | the player's session reads back as set; other players' sessions and the rest of the state are untouched |
| Plugin.RemoveSession | src/main/java/dev/jaqobb/message_editor/MessageEditorPlugin.java:292-294 | the player has no session afterwards; others keep theirs |
| Plugin.ClearSessions | src/main/java/dev/jaqobb/message_editor/MessageEditorPlugin.java:296-298 | nobody has a session afterwards; nothing else changes |
| Listeners.Process | src/main/java/dev/jaqobb/message_editor/listener/packet/CommonPacketListener.java:74-112 | a throwing `replaceAll` leaves the packet and the state untouched; otherwise the packet is rewritten exactly when the resolved text differs from the original; configuration is untouched and nothing is cancelled |
| Listeners.OnCommon | src/main/java/dev/jaqobb/message_editor/listener/packet/CommonPacketListener.java:60-113 | a cancelled, filtered-out or textless packet is left untouched; otherwise it is written exactly when its text changes |
| Listeners.CommonNoEdit | src/main/java/dev/jaqobb/message_editor/listener/packet/CommonPacketListener.java:78-92 | a text no edit matches is neither written nor cached |
| Listeners.CommonThrowLeavesPacket | src/main/java/dev/jaqobb/message_editor/listener/packet/CommonPacketListener.java:90-112 | when the first edit to fire has no new text or a malformed one, the packet is neither written nor cached, and the state is unchanged |
| Listeners.CommonCacheHit | src/main/java/dev/jaqobb/message_editor/listener/packet/CommonPacketListener.java:74-77 | a cached text is written as the cached new text, with its JSON flag recomputed |
| Listeners.CommonRepeatable | src/main/java/dev/jaqobb/message_editor/listener/packet/CommonPacketListener.java:74-112 | a text rewritten once is written the same way the next time, even at another place |
| Listeners.OnBossBar | src/main/java/dev/jaqobb/message_editor/listener/packet/BossBarPacketListener.java:40-48 | a boss bar packet the filter rejects is left untouched |
| Listeners.BossBarShouldProcess | src/main/java/dev/jaqobb/message_editor/listener/packet/BossBarPacketListener.java:40-48 | a boss bar packet passes before 1.17 only with an action that is ADD or UPDATE_NAME, and from 1.17 only with exactly one component field |
| Listeners.BossBarFilter | src/main/java/dev/jaqobb/message_editor/listener/packet/BossBarPacketListener.java:40-48 | before 1.17 only ADD and UPDATE_NAME actions pass, and a missing action does not; from 1.17 on exactly packets with one component field pass |
| Listeners.OnScoreboardTitle | src/main/java/dev/jaqobb/messageeditor/listener/packet/ScoreboardTitlePacketListener.java:64-121 | only actions 0 and 2 with a title are processed, and processing keeps the configuration and writes exactly when it sets the packet |
| Listeners.ScoreboardPlaceholderOrder | src/main/java/dev/jaqobb/messageeditor/listener/packet/ScoreboardTitlePacketListener.java:93-102 | a fresh title is replaced, colour-translated, then resolved by PlaceholderAPI and last by MVdWPlaceholderAPI |
| Listeners.SwitchPlace | src/main/java/dev/jaqobb/message_editor/listener/packet/ChatPacketListener.java:92-95 | the message moves only to a chat place named by the edit; otherwise it stays where it was |
| Listeners.TypeWriteFor | src/main/java/dev/jaqobb/message_editor/listener/packet/ChatPacketListener.java:137-143 | the chat type is written exactly when the place changed, as a byte for one-byte packets and as the enum otherwise, each with the new place's value |
| Listeners.ProcessChat | src/main/java/dev/jaqobb/message_editor/listener/packet/ChatPacketListener.java:69-149 | a throwing `replaceAll` leaves the packet and state untouched; a cancelled message writes nothing, and the packet is set exactly when its text or its type is written; a text written differs from the original |
| Listeners.OnChat | src/main/java/dev/jaqobb/message_editor/listener/packet/ChatPacketListener.java:60-68 | a cancelled or textless chat packet, or one that belongs to no place, is left untouched |
| Listeners.ChatPlaceIsChat | src/main/java/dev/jaqobb/messageeditor/message/MessagePlace.java:355-386 | a chat packet only ever resolves to one of the three chat places |
| Listeners.ChatCancelsEmpty | src/main/java/dev/jaqobb/message_editor/listener/packet/ChatPacketListener.java:87-91 | a chat message an edit turns into the empty text is cancelled, and the empty result is cached |
| Listeners.ChatNoEdit | src/main/java/dev/jaqobb/message_editor/listener/packet/ChatPacketListener.java:78-88 | an unedited chat message that gets no edit button is left as it is and not cached |
| Listeners.ChatIdFromFinal | src/main/java/dev/jaqobb/message_editor/listener/packet/ChatPacketListener.java:108-117 | the id recorded for a shown chat message is computed from its final text and final place, and looks that message up |
| Listeners.ChatSwitchesToChatPlace | src/main/java/dev/jaqobb/message_editor/listener/packet/ChatPacketListener.java:137-147 | a chat type is written only for a message an edit changed and kept, and then the packet is set |
| ItemsListener.ItemsOf | src/main/java/dev/jaqobb/message_editor/listener/packet/InventoryItemsPacketListener.java:69-74 | the items come from the array field when the packet has exactly one, and from the list field otherwise |
| ItemsListener.HandleText | src/main/java/dev/jaqobb/message_editor/listener/packet/InventoryItemsPacketListener.java:84-131 | a throwing `replaceAll` is reported and changes nothing; otherwise the shown text is the resolved text, turned into legacy text by reading it as legacy-coded text when it is JSON, and the data cache records the shown text under its id; the edits, sessions and analysed places are untouched |
| ItemsListener.HandleItem | src/main/java/dev/jaqobb/message_editor/listener/packet/InventoryItemsPacketListener.java:77-180 | an item without meta is skipped, an item reported unchanged (a throw included) is the item it was, a throw is never reported as a change, and the configuration is untouched |
| ItemsListener.HandleItemResult | src/main/java/dev/jaqobb/message_editor/listener/packet/InventoryItemsPacketListener.java:83-180 | for an item with meta: it throws exactly when the name's handling, or the lore's handling on the state the name left, throws; otherwise the name becomes the handled name text, the lore becomes the handled joined lore split again when that text differs, and the item counts as changed exactly when the name text or the joined lore text differs |
| ItemsListener.HandleItems | src/main/java/dev/jaqobb/message_editor/listener/packet/InventoryItemsPacketListener.java:75-182 | the list keeps its length, items without meta keep their slot, and without an update the list is unchanged; a throw ends the loop with the remaining items as they were |
| ItemsListener.HandleItemsAppend | src/main/java/dev/jaqobb/message_editor/listener/packet/InventoryItemsPacketListener.java:75-182 | handling a list in two parts threads the state from the first part into the second, unless the first part throws, which leaves the second part as it was |
| ItemsListener.HandleItemsAt | src/main/java/dev/jaqobb/message_editor/listener/packet/InventoryItemsPacketListener.java:76-180 | item k of the result is what handling item k makes of it on the state left by the items before it, when none of them throws and it does not itself throw; its change sets `update` |
| ItemsListener.HandleItemsUpdate | src/main/java/dev/jaqobb/message_editor/listener/packet/InventoryItemsPacketListener.java:75-180 | `update` is set exactly when some item, reached without an earlier throw, has its name or lore text changed on the state threaded up to it |
| ItemsListener.OnItems | src/main/java/dev/jaqobb/message_editor/listener/packet/InventoryItemsPacketListener.java:62-198 | a cancelled packet is untouched; otherwise the items are resent exactly when some item changed and no `replaceAll` threw, with the same number of items |
| ItemsListener.ItemPlaceFilters | src/main/java/dev/jaqobb/message_editor/listener/packet/InventoryItemsPacketListener.java:88-121 | when no edit admits the item-name place, an uncached name is shown unchanged, or read as legacy-coded text when it is JSON |
| ItemsListener.LoreRoundTrip | src/main/java/dev/jaqobb/message_editor/listener/packet/InventoryItemsPacketListener.java:134-180 | round trip: lore lines joined with the `\n` marker and split again come back unchanged, when no line holds the marker and the last is not empty |
| ItemsListener.NewLore | src/main/java/dev/jaqobb/message_editor/listener/packet/InventoryItemsPacketListener.java:176-180 | a text without the `\n` marker becomes one lore line; otherwise the lines never end in an empty one |
| ItemsListener.LoreLosesTrailingEmptyLine | src/main/java/dev/jaqobb/message_editor/listener/packet/InventoryItemsPacketListener.java:176-180 | a lore ending in an empty line loses that line when it is split again |
| ItemsListener.ChangedTextSameLore | src/main/java/dev/jaqobb/message_editor/listener/packet/InventoryItemsPacketListener.java:176-198 | an item can be reported changed, and the packet resent, although its lore comes out the same |
| Menu.ItemInPlaced | src/main/java/dev/jaqobb/message_editor/menu/MenuManager.java:101-229 | every filled slot was filled by some placement of that item at that slot |
| Menu.ItemIn | src/main/java/dev/jaqobb/message_editor/menu/MenuManager.java:101-229 | a non-empty slot is covered by some placement |
| Menu.ItemsAtOneSlot | src/main/java/dev/jaqobb/message_editor/menu/MenuManager.java:120-229 | the old message, new message, new place, done and cancel items each sit at exactly one slot |
| Menu.ItemInUncovered | src/main/java/dev/jaqobb/message_editor/menu/MenuManager.java:101-229 | a slot no placement covers stays empty |
| Menu.ItemInLast | src/main/java/dev/jaqobb/message_editor/menu/MenuManager.java:101-229 | the last placement to cover a slot decides its item |
| Menu.MessageItemsAt | src/main/java/dev/jaqobb/message_editor/menu/MenuManager.java:154-225 | the old message is at slot 20, the new message at 24 and the new place at 33 |
| Menu.ButtonItemsAt | src/main/java/dev/jaqobb/message_editor/menu/MenuManager.java:228-229 | the cancel item is at slot 48 and the done item at 50 |
| Menu.PanesAt | src/main/java/dev/jaqobb/message_editor/menu/MenuManager.java:58-62 | slots 11 and 15 hold gray panes |
| Menu.Wrap | src/main/java/dev/jaqobb/message_editor/menu/MenuManager.java:133-148 | wrapping never makes more lines than words, makes at least one for a non-empty paragraph, and every line but the last reaches 40 UTF-16 code units |
| Menu.WrapJoin | src/main/java/dev/jaqobb/message_editor/menu/MenuManager.java:133-148 | wrapping keeps the words: the lines joined with spaces are the words joined with spaces |
| Menu.Colorize | src/main/java/dev/jaqobb/message_editor/menu/MenuManager.java:141-145 | each lore line after the first starts with the last colours of the line before it, so colours carry over a wrap |
| Menu.LineSeparator | src/main/java/dev/jaqobb/message_editor/menu/MenuManager.java:132 | lines are split on a non-empty separator, which depends on the JSON flag |
| Menu.MessageLore | src/main/java/dev/jaqobb/message_editor/menu/MenuManager.java:131-148 | the lore is an empty line followed by the wrapped, colour-carried lines of the shown text |
| Menu.OneLineChunks | src/main/java/dev/jaqobb/message_editor/menu/MenuManager.java:132-148 | a text without a line break is shown word for word |
| Menu.NoColorsPassThrough | src/main/java/dev/jaqobb/message_editor/menu/MenuManager.java:141-145 | text without section signs gains no colour codes |
| Menu.NoColorsInPlainLine | src/main/java/dev/jaqobb/message_editor/util/MessageUtils.java:100-136 | a line without section signs has no last colours |
| Menu.FileNameView | src/main/java/dev/jaqobb/message_editor/menu/MenuManager.java:109-120 | the file-name item names the session's file and tells where it is saved |
| Menu.OldMessageView | src/main/java/dev/jaqobb/message_editor/menu/MenuManager.java:121-154 | the old-message item shows the old message's lore, then an empty line and the click hint |
| Menu.NewMessageView | src/main/java/dev/jaqobb/message_editor/menu/MenuManager.java:166-205 | the new-message item shows the new message's lore followed by the six hint lines |
| Menu.PlaceLore | src/main/java/dev/jaqobb/message_editor/menu/MenuManager.java:155-165 | a place's lore is three lines starting with an empty one |
| Menu.NewPlaceView | src/main/java/dev/jaqobb/message_editor/menu/MenuManager.java:206-225 | the new-place item adds its two-line hint exactly when the place is one the chat prompt accepts |
| Menu.PlaceHintIffListed | src/main/java/dev/jaqobb/message_editor/menu/MenuManager.java:214-222 | the menu hint and the chat prompt agree on which places may be chosen |
| Menu.MenuFor | src/main/java/dev/jaqobb/message_editor/menu/MenuManager.java:101-232 | the menu shows the session's old and new message and both places |
| Menu.OpenMenu | src/main/java/dev/jaqobb/message_editor/menu/MenuManager.java:95-99 | opening the menu on recorded data gives the player a fresh session for it; other players and the rest of the state are untouched |
| Menu.FreshMenuShowsSameMessage | src/main/java/dev/jaqobb/message_editor/menu/MenuManager.java:121-225 | a freshly opened menu shows the old and new message with the same lore, and the old and new place with the same place lore |
| Menu.OpenedMenuIgnoresChat | src/main/java/dev/jaqobb/message_editor/listener/player/PlayerChatListener.java:54-64 | opening the menu does not start a chat prompt: the next chat line is not taken |
| ChatSession.AvailablePlaces | src/main/java/dev/jaqobb/message_editor/listener/player/PlayerChatListener.java:157-171 | the places offered are exactly the chat places, without game chat from 1.19 on |
| ChatSession.ReplaceOld | src/main/java/dev/jaqobb/message_editor/listener/player/PlayerChatListener.java:98-115 | the old message becomes its first key occurrence replaced by the value with backslashes doubled, the pattern its first escaped-key occurrence replaced by the value, both colour-translated unless the new message is JSON, with the JSON flag recomputed; the key is cleared and the new message is untouched |
| ChatSession.ReplaceNew | src/main/java/dev/jaqobb/message_editor/listener/player/PlayerChatListener.java:134-149 | the new message becomes its first key occurrence replaced by the value as typed, colour-translated unless it is JSON, with the JSON flag recomputed; the key is cleared and the old message untouched |
| ChatSession.ValueReplacesFirst | src/main/java/dev/jaqobb/message_editor/listener/player/PlayerChatListener.java:98-115 | at the key's first occurrences, the old message becomes the text before it, the value with backslashes doubled, and the text after it; the pattern likewise gets the value as typed in place of the escaped key; both translated unless JSON |
| ChatSession.NewValueReplacesFirst | src/main/java/dev/jaqobb/message_editor/listener/player/PlayerChatListener.java:134-149 | at the key's first occurrence, the new message becomes the text before it, the value as typed, and the text after it, translated unless JSON |
| ChatSession.CommitParts | src/main/java/dev/jaqobb/message_editor/listener/player/PlayerChatListener.java:71-84 | finishing the new message empties the part cache and returns to idle; without parts nothing else changes |
| ChatSession.ChoosePlace | src/main/java/dev/jaqobb/message_editor/listener/player/PlayerChatListener.java:150-177 | an accepted place is a supported chat place, never game chat from 1.19 on; an unknown name is refused and nothing changes |
| ChatSession.PlaceChoice | src/main/java/dev/jaqobb/message_editor/listener/player/PlayerChatListener.java:157-173 | a place is stored exactly when it is a supported chat place; the stored place is itself a supported chat place and never game chat from 1.19 on |
| ChatSession.Finish | src/main/java/dev/jaqobb/message_editor/listener/player/PlayerChatListener.java:66-92 | "done" returns to idle, clears the pending key, and keeps the old message |
| ChatSession.AddPart | src/main/java/dev/jaqobb/message_editor/listener/player/PlayerChatListener.java:116-128 | "remove" as the first part of a chat-place message empties the new message; any other line is appended to the parts |
| ChatSession.Input | src/main/java/dev/jaqobb/message_editor/listener/player/PlayerChatListener.java:93-177 | a key line records the key and asks for the value |
| ChatSession.Step | src/main/java/dev/jaqobb/message_editor/listener/player/PlayerChatListener.java:54-177 | "done" in any editing mode returns to idle and reopens the menu; idle or file-name mode ignores the line |
| ChatSession.OnPlayerChat | src/main/java/dev/jaqobb/message_editor/listener/player/PlayerChatListener.java:54-64 | a chat line is taken and cancelled exactly when the player is in an editing mode; other players, edits and caches are untouched |
| ChatSession.FeedKeepsFinals | src/main/java/dev/jaqobb/message_editor/listener/player/PlayerChatListener.java:54-177 | no sequence of chat lines changes a session's id, originals or file name |
| ChatSession.PartsAccumulate | src/main/java/dev/jaqobb/message_editor/listener/player/PlayerChatListener.java:124-128 | parts typed one after another are concatenated in order |
| ChatSession.PartsThenDone | src/main/java/dev/jaqobb/message_editor/listener/player/PlayerChatListener.java:71-84 | parts followed by "done" make the new message their concatenation, translated unless it is JSON |
| ChatSession.RemoveOnlyForChat | src/main/java/dev/jaqobb/message_editor/listener/player/PlayerChatListener.java:117-123 | "remove" empties the new message exactly for a chat place with no parts yet |
| ChatSession.KeyThenValue | src/main/java/dev/jaqobb/message_editor/listener/player/PlayerChatListener.java:93-112 | a key then a value replace once and return to asking for a key |
| ChatSession.AbsentKeyKeepsOld | src/main/java/dev/jaqobb/message_editor/listener/player/PlayerChatListener.java:102-106 | a key found in neither the message nor the pattern leaves both unchanged |
| ChatSession.ValueBackslashes | src/main/java/dev/jaqobb/message_editor/listener/player/PlayerChatListener.java:98-106 | with a key that is the whole old message, a value's backslashes are doubled in the old message but reach the pattern as typed |
| ChatSession.ListedPlacesAccepted | src/main/java/dev/jaqobb/message_editor/listener/player/PlayerChatListener.java:150-177 | every place the prompt lists is accepted when typed by its enum name |
| ChatSession.GameChatBecomesSystem | src/main/java/dev/jaqobb/message_editor/listener/player/PlayerChatListener.java:172-174 | from 1.19 on, choosing game chat selects system chat |
| ClickSession.ButtonAt | src/main/java/dev/jaqobb/message_editor/menu/MenuManager.java:154-229 | the corrected click handler: each button answers at exactly the slot where its item is drawn |
| ClickSession.ButtonAtAsWritten | src/main/java/dev/jaqobb/message_editor/listener/player/PlayerInventoryClickListener.java:80-154 | as written, each button answers at exactly one of the slots 11, 15, 24, 48 and 50 |
| ClickSession.SavedEdit | src/main/java/dev/jaqobb/message_editor/listener/player/PlayerInventoryClickListener.java:126-145 | a save exists exactly when the pattern compiles; it keeps the pattern and both places, always has a new text, quotes the new message when the pattern does not match the original, and with the corrected preparation is always a valid replacement |
| ClickSession.OpenInput | src/main/java/dev/jaqobb/message_editor/listener/player/PlayerInventoryClickListener.java:80-125 | each message button starts its chat prompt with a cleared key or part cache; the place button opens only for a message shown in chat |
| ClickSession.Save | src/main/java/dev/jaqobb/message_editor/listener/player/PlayerInventoryClickListener.java:126-150 | a save appends the edit (prepared as chosen) last, clears the message cache and keeps sessions; a pattern that does not compile aborts with nothing changed |
| ClickSession.Press | src/main/java/dev/jaqobb/message_editor/listener/player/PlayerInventoryClickListener.java:80-154 | a button press is cancelled, keeps every other session and the session's originals, changes edits only on save, and closes the menu on cancel or when a prompt opens |
| ClickSession.Handle | src/main/java/dev/jaqobb/message_editor/listener/player/PlayerInventoryClickListener.java:62-79 | a click is cancelled exactly when it is in the editor menu, and does nothing outside it, on nothing or without a session |
| ClickSession.OnClickAsWritten | src/main/java/dev/jaqobb/message_editor/listener/player/PlayerInventoryClickListener.java:60-156 | as written, slot 48 saves with the new message escaped as the listener escapes it, and slot 50 closes without saving |
| ClickSession.OnClick | src/main/java/dev/jaqobb/message_editor/listener/player/PlayerInventoryClickListener.java:60-156 | the corrected handler acts on the button the clicked slot's item advertises, and saves with the corrected escaping |
| ClickSession.ButtonsMatchLayout | src/main/java/dev/jaqobb/message_editor/menu/MenuManager.java:120-229 | in the corrected handler, every slot answers as the item drawn at it advertises |
| ClickSession.LayoutMismatch | src/main/java/dev/jaqobb/message_editor/listener/player/PlayerInventoryClickListener.java:80-154 | as written, cancel saves, done cancels, two panes open prompts and the new message opens the place prompt |
| ClickSession.CancelSavesAsWritten | src/main/java/dev/jaqobb/message_editor/listener/player/PlayerInventoryClickListener.java:126-150 | as written, clicking the cancel item adds an edit; in the corrected handler it changes nothing |
| ClickSession.SavedReplacementSound | src/main/java/dev/jaqobb/message_editor/listener/player/PlayerInventoryClickListener.java:132-145 | with the corrected escaping, a saved edit's new text is always accepted by `replaceAll`, and yields the new message verbatim when the pattern does not match the original |
| ClickSession.Prepared | src/main/java/dev/jaqobb/message_editor/listener/player/PlayerInventoryClickListener.java:132-143 | without a match the new message is quoted under either preparation; the corrected preparation is always a valid replacement |
| ClickSession.SavedLoneDollarThrows | src/main/java/dev/jaqobb/message_editor/listener/player/PlayerInventoryClickListener.java:132-145 | as written, a session whose pattern matches its original message saves the new message "5$" as "5$", and every text that edit then fires on makes `replaceAll` throw |
| ClickSession.SavedEditApplies | src/main/java/dev/jaqobb/message_editor/listener/player/PlayerInventoryClickListener.java:145-146 | right after a corrected save, a text the saved pattern matches is rewritten by the new edit without a throw, unless an earlier edit fires |
| ClickSession.SaveKeepsSession | src/main/java/dev/jaqobb/message_editor/listener/player/PlayerInventoryClickListener.java:126-150 | saving keeps the session and its mode, so the player can save again |
| ClickSession.ClickThenRemove | src/main/java/dev/jaqobb/message_editor/listener/player/PlayerChatListener.java:116-123 | clicking the new message of a chat message and typing "remove" empties it and reopens the menu |
| ClickSession.InputSwallowsChat | src/main/java/dev/jaqobb/message_editor/listener/player/PlayerChatListener.java:54-64 | after a click opens a prompt, the next chat line is taken as input and cancelled |
| Command.NamedPlace | src/main/java/dev/jaqobb/message_editor/command/MessageEditorCommand.java:101-110 | an argument names a place only when the place is found and supported |
| Command.Lookups | src/main/java/dev/jaqobb/message_editor/command/MessageEditorCommand.java:100-110 | each argument is looked up on its own, in order |
| Command.NamedMembers | src/main/java/dev/jaqobb/message_editor/command/MessageEditorCommand.java:100-117 | the places the arguments name are exactly the places found |
| Command.ToggleOne | src/main/java/dev/jaqobb/message_editor/command/MessageEditorCommand.java:111-116 | one argument switches its place on or off, counting it only when its flag changed |
| Command.ToggleAll | src/main/java/dev/jaqobb/message_editor/command/MessageEditorCommand.java:99-146 | the count never exceeds the number of arguments; activating only adds places and deactivating only removes them |
| Command.ActivateCounts | src/main/java/dev/jaqobb/message_editor/command/MessageEditorCommand.java:99-118 | activation analyses every named place, and the count is the number of named places not analysed before |
| Command.DeactivateCounts | src/main/java/dev/jaqobb/message_editor/command/MessageEditorCommand.java:128-147 | deactivation stops every named place, and the count is the number of named places analysed before |
| Command.ActivateThenDeactivate | src/main/java/dev/jaqobb/message_editor/command/MessageEditorCommand.java:92-149 | deactivating what was just activated restores the flags and reports the same count |
| Command.RepeatedArgumentCountsOnce | src/main/java/dev/jaqobb/message_editor/command/MessageEditorCommand.java:100-117 | naming a place twice flips and counts it once |
| Command.ReloadState | src/main/java/dev/jaqobb/message_editor/command/MessageEditorCommand.java:61-63 | a reload empties the message cache and all sessions, reloads the edits, and keeps recorded data and analysed places |
| Command.OnCommand | src/main/java/dev/jaqobb/message_editor/command/MessageEditorCommand.java:47-163 | without permission nothing happens; `reload` clears the caches and sessions and reloads, and is reported with menus closed exactly when no edits file fails, a failing file leaving the cleared state with nothing reported or closed; `edit` opens a menu only for a recorded id; toggles change only the flags; anything else leaves the state alone |
| Command.ReloadEndsEditing | src/main/java/dev/jaqobb/message_editor/command/MessageEditorCommand.java:56-73 | after a reload, even one whose `reloadConfig` throws, no chat line is taken as editor input; the reload is reported exactly when no edits file fails |
| Command.EditOpensRecordedMessage | src/main/java/dev/jaqobb/message_editor/command/MessageEditorCommand.java:74-91 | `edit` with a recorded id gives the player a session on exactly that message |
| Command.UnknownShowsHelp | src/main/java/dev/jaqobb/message_editor/command/MessageEditorCommand.java:161-162 | an unknown first argument shows the help and changes nothing |
| Command.Matching | src/main/java/dev/jaqobb/message_editor/command/MessageEditorCommandTabCompleter.java:44-67 | the candidates offered are exactly those that start with the typed prefix, never more than there are, and all of them in order when all match |
| Command.MatchingAppend | src/main/java/dev/jaqobb/message_editor/command/MessageEditorCommandTabCompleter.java:44-67 | matching keeps the candidates' order: the matches of a concatenation are the matches of each part in turn |
| Command.MatchingEmpty | src/main/java/dev/jaqobb/message_editor/command/MessageEditorCommandTabCompleter.java:44-67 | every candidate matches the empty prefix |
| Command.CompleteFirstArgument | src/main/java/dev/jaqobb/message_editor/command/MessageEditorCommandTabCompleter.java:43-67 | a lone argument is completed with the matching subcommands, in their listed order |
| Command.CompleteEmptyArgument | src/main/java/dev/jaqobb/message_editor/command/MessageEditorCommandTabCompleter.java:43-67 | an empty first argument is completed with all seven subcommands, in their listed order |
| Command.OfferedPlaces | src/main/java/dev/jaqobb/message_editor/command/MessageEditorCommandTabCompleter.java:68-83 | a place is offered exactly when its name starts with the prefix, it is supported and its flag would change |
| Command.Complete | src/main/java/dev/jaqobb/message_editor/command/MessageEditorCommandTabCompleter.java:38-85 | no completion without permission; for one argument, exactly the subcommands starting with its lower-case form; for more, nothing unless the first is `activate` or `deactivate`, and then the place completions of the later arguments |
| Command.Block | src/main/java/dev/jaqobb/message_editor/command/MessageEditorCommandTabCompleter.java:70-81 | one argument's completions are exactly the names of the places offered for its upper-case form |
| Command.PlaceCompletions | src/main/java/dev/jaqobb/message_editor/command/MessageEditorCommandTabCompleter.java:68-83 | a name is completed after `activate` or `deactivate` exactly when some later argument's block holds it |
| Command.PlaceCompletionsAppend | src/main/java/dev/jaqobb/message_editor/command/MessageEditorCommandTabCompleter.java:68-83 | one block per argument, in argument order: the completions of a concatenation are those of each part in turn |
| Command.RepeatedArgument | src/main/java/dev/jaqobb/message_editor/command/MessageEditorCommandTabCompleter.java:68-83 | an argument given twice is completed twice, so duplicates are kept |
| Command.CompletedPlaceFlips | src/main/java/dev/jaqobb/message_editor/command/MessageEditorCommandTabCompleter.java:68-83 | a place completed after `activate` or `deactivate` is flipped and counted by the command |
| Command.CompletionFlips | src/main/java/dev/jaqobb/message_editor/command/MessageEditorCommandTabCompleter.java:68-83 | every completion offered after `activate` or `deactivate` is the name of a place whose flag differs, and running the command with that name alone flips it and counts one |
| Command.MigrateOffered | src/main/java/dev/jaqobb/message_editor/command/MessageEditorCommandTabCompleter.java:64-66 | "migrate" is completed from "m" |
| Command.MigrateUnknown | src/main/java/dev/jaqobb/message_editor/command/MessageEditorCommand.java:56-162 | yet the command has no `migrate` and only shows the help |
| Updater.Create | src/main/java/dev/jaqobb/message_editor/updater/Updater.java:44-50 | a new updater knows only the running version |
| Updater.Message | src/main/java/dev/jaqobb/message_editor/updater/Updater.java:64-74 | a snapshot is a development version; a missing latest version or difference is a failed check; a negative difference is outdated; otherwise up to date |
| Updater.CompareInt | src/main/java/dev/jaqobb/message_editor/updater/Updater.java:92-95 | `Integer.compare` gives -1, 0 or 1 by the order of its arguments |
| Updater.CompareParts | src/main/java/dev/jaqobb/message_editor/updater/Updater.java:92-111 | a difference is -1, 0 or 1, exists only when both major parts parse, and is 0 only when all three parts parse to equal numbers |
| Updater.Run | src/main/java/dev/jaqobb/message_editor/updater/Updater.java:77-118 | a snapshot or an unreachable site changes nothing; a read line becomes the latest version; the difference changes only when both versions have three parts |
| Updater.CompareMatchesOrder | src/main/java/dev/jaqobb/message_editor/updater/Updater.java:89-111 | on numeric versions the difference is -1, 0 or 1 exactly when the running version is older, equal or newer, numerically by major, minor, patch |
| Updater.CompareAntisymmetric | src/main/java/dev/jaqobb/message_editor/updater/Updater.java:92-111 | swapping the versions negates the difference, and they fail together |
| Updater.CompareReflexive | src/main/java/dev/jaqobb/message_editor/updater/Updater.java:92-111 | a version compared with itself gives 0, exactly when its parts are numbers |
| Updater.FirstCheckMessage | src/main/java/dev/jaqobb/message_editor/updater/Updater.java:64-111 | a first successful check reports outdated exactly when the latest version is numerically newer |
| Updater.FirstCheckUnsplittable | src/main/java/dev/jaqobb/message_editor/updater/Updater.java:89-91 | a version that does not split into three parts makes the first check fail |
| Updater.RunAll | src/main/java/dev/jaqobb/message_editor/updater/Updater.java:77-118 | repeated checks never change the running version |
| Updater.SnapshotRunsNothing | src/main/java/dev/jaqobb/message_editor/updater/Updater.java:78-80 | a snapshot build never changes its updater, however many checks run |
| Updater.SnapshotStaysDevelopment | src/main/java/dev/jaqobb/message_editor/updater/Updater.java:64-80 | a snapshot build always reports a development version |
| Updater.ReleaseNumeric | src/main/java/dev/jaqobb/message_editor/updater/Updater.java:89-109 | round trip: a version written as major.minor.patch parses back to those numbers |
| Updater.ReleaseCheck | src/main/java/dev/jaqobb/message_editor/updater/Updater.java:64-111 | for released versions, the check reports outdated exactly when the latest is numerically newer |
| Updater.NumericNotTextual | src/main/java/dev/jaqobb/message_editor/updater/Updater.java:92-111 | 1.9.0 is outdated against 1.10.0: parts compare as numbers, not text |
| Updater.LaterPartsUnread | src/main/java/dev/jaqobb/message_editor/updater/Updater.java:96-110 | once the major parts differ the minor parts are never parsed; with equal majors an unparsable minor part aborts |
| Updater.StaleDifference | src/main/java/dev/jaqobb/message_editor/updater/Updater.java:88-117 | a check that aborts after reading a new line keeps the old difference, so the report names the new line as outdated on the old comparison |
| Updater.FirstRelease | src/main/java/dev/jaqobb/message_editor/updater/Updater.java:77-111 | 1.0.0 checked against 2.0.0 records 2.0.0 and the difference -1 |
| Updater.AbortKeepsDifference | src/main/java/dev/jaqobb/message_editor/updater/Updater.java:88-117 | a comparison that fails still records the line read, and leaves the difference as it was |
| Strings.IndexOf | src/main/java/dev/jaqobb/message_editor/updater/Updater.java:65 | a string is found exactly when it occurs, and at its first occurrence |
| Strings.ReplaceFirst | src/main/java/dev/jaqobb/message_editor/listener/player/PlayerChatListener.java:102 | without the key the text is unchanged; otherwise exactly its first occurrence is replaced |
| Strings.ReplaceFirstAt | src/main/java/dev/jaqobb/message_editor/listener/player/PlayerChatListener.java:102 | at a known first occurrence, `replaceFirst` splices the value in place of the key |
| Strings.Utf16Length | src/main/java/dev/jaqobb/message_editor/menu/MenuManager.java:133-148 | `String.length()` counts characters exactly when none lies outside the Basic Multilingual Plane |
| Strings.JavaSplitJoin | src/main/java/dev/jaqobb/message_editor/listener/packet/InventoryItemsPacketListener.java:176 | round trip: splitting parts joined with a separator gives them back, when no part holds the separator and the last is not empty |
| Strings.JoinSplitAll | src/main/java/dev/jaqobb/message_editor/listener/packet/InventoryItemsPacketListener.java:134-176 | round trip: joining all pieces of a split, trailing empty ones included, gives the text back |
| Strings.StripTrailingEmpty | src/main/java/dev/jaqobb/message_editor/listener/packet/InventoryItemsPacketListener.java:176 | `String.split` drops trailing empty pieces, and only those |
| Strings.ToInt32 | src/main/java/dev/jaqobb/message_editor/util/MessageUtils.java:79 | wrap-around keeps values in 32-bit range and leaves values already in it alone |
| Strings.ParseInt | src/main/java/dev/jaqobb/message_editor/updater/Updater.java:93-108 | `Integer.parseInt` gives a 32-bit value and never parses the empty string |
| Strings.ParseDecimal | src/main/java/dev/jaqobb/message_editor/updater/Updater.java:93-108 | round trip: a number up to 2^31-1 written in decimal parses back to itself |
| Strings.DecimalValue | src/main/java/dev/jaqobb/message_editor/util/MessageUtils.java:79-81 | round trip: the decimal digits of a number denote that number |

## Left out

- I/O: the YAML configuration, the `edits` directory listing and `saveConfig` are inputs and outputs of the model. `Plugin.Reload` takes the configured edits and the directory listing as parameters.
- The HTTP request of the update check becomes the `Updater.Fetch` parameter: unreachable, no line, or a line.
- Scheduling: the reopening of the menu one tick later, and the resending of inventory items, are reported as flags (`reopen`, `resend`). They are not performed.
- Sounds, chat notices and the help text are reduced to a `Notice` tag or an `Outcome`. Their wording is not modelled.
- bStats metrics, the PlaceholderAPI and MVdWPlaceholderAPI plugins, and `PluginEnableListener` are not modelled. The placeholder resolvers are given functions of the `Viewer`, and the presence of each plugin is a flag of the environment.
- The packet-listener switches and the `updateNotify` and `attachSpecialHoverAndClickEvents` options are not reloaded. The model takes them as fixed flags of the environment.
- The message cache expires entries after a time in the source. The model keeps them until they are removed or cleared, because clocks are outside the model.
- `composeMessageId` is not part of this model. Every listener records the id that `generateId` computes.
- `MessageData` as given has no id field. The model pairs each data record with the id it is cached under.
- Regular expressions, `JsonParser`, colour translation, `TextComponent.toLegacyText` and `ChatColor.of` are given functions without a definition. Their properties are assumed only where a lemma states them as a precondition.
- Letter case is folded for ASCII only, and `Integer.parseInt` accepts ASCII digits with an optional sign, as the source's version parts need.
- The packet getters and setters (`getMessage`/`setMessage` of each place) are not modelled. The text read is a parameter and the text written is a result.
- Kick, disconnect, scoreboard entry, inventory title and entity name packets go through `Listeners.OnCommon` with their place. Their packet-specific fields are not modelled.
- When `fromPacket` finds no place, the chat listener throws a `NullPointerException`. `Listeners.OnChat` leaves the packet untouched instead.
- The file-name button is advertised in the menu but has no click handler. `ClickSession.ButtonAt` gives it no action either.
- The click listener's guard `slot < 0 && slot >= size` can never be true. The model keeps it as it is, so it filters nothing.
- Older copies of the classes in `dev/jaqobb/messageeditor` are not modelled, except the three named above.
- Edits.Serialize: a null `message-after` is left out of the map rather than written as null, because the configuration stores a null value as no value.
- Edits.ReplaceAll: the behaviour of `Matcher.replaceAll` is a given function; that it throws only on a malformed replacement is the assumption `ThrowsOnlyOnBadReplacement`, stated as a precondition wherever it is used.
- Replacement.Expand: treats a `${name}` named-group reference as malformed, so for patterns with named groups `Replacement.Expandable` is stricter than `java.util.regex`. An engine with such patterns does not satisfy `ThrowsOnlyOnBadReplacement`, and the lemmas that assume it say nothing about that engine.
- ItemsListener.HandleItems: the item meta is changed in place, item by item; when a later item throws, the changes already made to earlier items are not modelled. The listener works on a shallow clone, and no resend happens after a throw.
- ClickSession.Save: a pattern that does not compile is reported as `SaveThrew` with the state unchanged. The source throws inside the click handler.
- MessageUtils.GetLastColors: the hex colour branch is modelled, but only the case without hex colours is characterised by `MessageUtils.LastColorsWithoutHex`.
- `translateWithPrefix` in MessageUtils.java (lines 73-75) is not modelled. It only puts the constant prefix "&8[&6Message Editor&8] " in front of a message and hands it to the server library's `&`-code translation. That translation is a given function here, so the call has no property of its own to state.

## Findings

| source | as written | input that shows it | evidently intended | confidence | as-written member | corrected member |
|---|---|---|---|---|---|---|
| src/main/java/dev/jaqobb/message_editor/util/MessageUtils.java:79 | `-message.hashCode() * 2L` negates in 32-bit arithmetic before widening, so the least integer stays negative; the digit loop then reads the `-` and the next digit as a pair and indexes the alphabet at -4 | the message "xfjfxtf", whose hash is -2^31 | negate after widening to `long`, so every message gets an id of digits 4294967296 | not executed | MessageUtils.GenerateIdAsWritten (lemma MessageUtils.GenerateIdAsWrittenThrows) | MessageUtils.GenerateId (lemma MessageUtils.GenerateIdAgrees) |
| src/main/java/dev/jaqobb/message_editor/listener/player/PlayerInventoryClickListener.java:132-143 | when the pattern matches the original message, only backslashes and `$n` references are escaped, so a `$` not followed by a digit reaches `replaceAll` unescaped | the new message "5$" with a pattern that matches the original message | quote every `$` that does not start a reference to an existing group, so that `replaceAll` always accepts the saved text | not executed | ClickSession.OnClickAsWritten, Replacement.SaveReplacementAsWritten (lemmas ClickSession.SavedLoneDollarThrows, Replacement.LoneDollarThrows) | ClickSession.OnClick, Replacement.SaveReplacement (lemmas ClickSession.SavedReplacementSound, Replacement.KeepRefsExpands, Replacement.AsWrittenAgrees) |
| src/main/java/dev/jaqobb/message_editor/listener/player/PlayerInventoryClickListener.java:80-154 | the click handler acts on slots 11, 15, 24, 48 and 50, but the menu draws the old message at 20, the new message at 24, the new place at 33, cancel at 48 and done at 50 (MenuManager.java:154-229) | clicking the cancel item at slot 48 | each slot acts as the item drawn there advertises: 48 cancels, 50 saves, 20, 24 and 33 open their prompts | not executed | ClickSession.OnClickAsWritten (lemmas ClickSession.LayoutMismatch, ClickSession.CancelSavesAsWritten) | ClickSession.OnClick (lemma ClickSession.ButtonsMatchLayout) |
