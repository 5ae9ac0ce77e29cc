/**
 * The library code the plugin calls but whose behaviour is not part of this
 * model: `java.util.regex`, the BungeeCord chat-component API and colour
 * translation, and the placeholder plugins. Each is an uninterpreted function
 * carried as a field, so every property proved here holds for every
 * implementation of them.
 */
module Externals {
  import opened Wrappers

  /** `java.util.regex` as the plugin uses it; `p` is a pattern source, `s` a subject. */
  datatype Regex = Regex(
    /** `Pattern.compile(p)` returns instead of throwing `PatternSyntaxException`. */
    compiles: string -> bool,
    /** `Pattern.compile(p).matcher(s).matches()`: the WHOLE subject matches. */
    fullMatch: (string, string) -> bool,
    /** `matcher.groupCount()`. */
    groupCount: string -> nat,
    /**
     * `Pattern.compile(p).matcher(s).replaceAll(replacement)`, `None` where it
     * throws for a malformed replacement.
     */
    replaceAll: (string, string, string) -> Option<string>
  )

  /** BungeeCord chat components and colour codes. */
  datatype TextLib = TextLib(
    /** `ChatColor.translateAlternateColorCodes('&', s)`. */
    translate: string -> string,
    /** `MessageUtils.isJson(s)`. */
    isJson: string -> bool,
    /** `BaseComponent.toLegacyText(ComponentSerializer.parse(s))`. */
    toLegacy: string -> string,
    /**
     * `BaseComponent.toLegacyText(MessageUtils.toBaseComponents(s))`: the
     * text cut into legacy-text components (`TextComponent.fromLegacyText`)
     * and written back; unlike `toLegacy`, it never parses `s` as JSON.
     */
    legacyText: string -> string,
    /**
     * Parse `s` (as JSON when the flag is set, else as legacy text), give every
     * component the hover text and the click command, and serialise to JSON.
     */
    decorate: (string, bool, string) -> string,
    /** `ChatColor.of("#" + hex).toString()`, or `None` where it throws `IllegalArgumentException`. */
    hexColor: string -> Option<string>
  )

  /** The player a packet is sent to, with the placeholder plugins' view of that player. */
  datatype Viewer = Viewer(
    uuid: nat,
    /** `player.hasPermission("messageeditor.use")`. */
    mayEdit: bool,
    /** `PlaceholderAPI.setPlaceholders(player, s)`. */
    placeholderApi: string -> string,
    /** `PlaceholderAPI.replacePlaceholders(player, s)` of MVdWPlaceholderAPI. */
    mvdwPlaceholderApi: string -> string
  )
}
