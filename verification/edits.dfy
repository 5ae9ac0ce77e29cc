/**
 * A message edit: a regular expression that selects whole messages, the place
 * the message must come from (any place when absent), the replacement text and
 * the place the rewritten message should move to. It is stored in the
 * configuration as a string map.
 */
module Edits {
  import opened Wrappers
  import opened Strings
  import opened Places
  import opened Externals
  import opened Replacement

  /**
   * `MessageEdit`. All four fields are final in the plugin; a datatype value
   * cannot change either. `pattern` is the compiled pattern's source; `after`
   * is `None` where the after-text is `null`.
   */
  datatype Edit = Edit(pattern: string, before: Option<Place>, after: Option<string>, afterPlace: Option<Place>)

  /** The places an edit stored in the configuration can name: those of the six-place enum. */
  predicate LegacyEdit(e: Edit) {
    (e.before.None? || IsLegacyPlace(e.before.value))
    && (e.afterPlace.None? || IsLegacyPlace(e.afterPlace.value))
  }

  /** What a successful `getMatcher` hands on: the pattern and the subject it matched in full. */
  datatype Match = Match(pattern: string, subject: string)

  const PatternKey: string := "message-before-pattern"
  const BeforePlaceKey: string := "message-before-place"
  const AfterKey: string := "message-after"
  const AfterPlaceKey: string := "message-after-place"

  /** The constructor: `None` where `Pattern.compile` throws. */
  function NewEdit(rx: Regex, pattern: string, before: Option<Place>, after: Option<string>, afterPlace: Option<Place>): (r: Option<Edit>)
    ensures r.Some? <==> rx.compiles(pattern)
    ensures r.Some? ==> r.value.pattern == pattern && r.value.before == before
    ensures r.Some? ==> r.value.after == after && r.value.afterPlace == afterPlace
  {
    if rx.compiles(pattern) then Some(Edit(pattern, before, after, afterPlace)) else None
  }

  /** `getMatcher`: a matcher only when the pattern matches the whole text, not a part of it. */
  function GetMatcher(rx: Regex, e: Edit, text: string): (r: Option<Match>)
    ensures r.Some? <==> rx.fullMatch(e.pattern, text)
    ensures r.Some? ==> r.value.pattern == e.pattern && r.value.subject == text
  {
    if rx.fullMatch(e.pattern, text) then Some(Match(e.pattern, text)) else None
  }

  /**
   * What the plugin relies on from `replaceAll` after a whole-text match: the
   * match is found at least once, and `appendReplacement` throws exactly when
   * the replacement is malformed for the pattern's group count.
   */
  ghost predicate ThrowsOnlyOnBadReplacement(rx: Regex) {
    forall p, s, rep :: rx.fullMatch(p, s) ==>
      (rx.replaceAll(p, s, rep).None? <==> !Expandable(rep, rx.groupCount(p)))
  }

  /** `matcher.replaceAll(after)`; `None` where it throws, a `null` after-text included. */
  function ReplaceAll(rx: Regex, m: Match, replacement: Option<string>): (r: Option<string>)
    ensures replacement.None? ==> r.None?
    ensures ThrowsOnlyOnBadReplacement(rx) && rx.fullMatch(m.pattern, m.subject) ==>
      (r.Some? <==> replacement.Some? && Expandable(replacement.value, rx.groupCount(m.pattern)))
  {
    if replacement.None? then None else rx.replaceAll(m.pattern, m.subject, replacement.value)
  }

  /**
   * `serialize`: the pattern always, each place (by enum name) only when
   * present. The after-text is put even when `null`, which the configuration
   * stores as no value; here it is left out.
   */
  function Serialize(e: Edit): (r: map<string, string>)
    ensures r.Keys <= {PatternKey, BeforePlaceKey, AfterKey, AfterPlaceKey}
    ensures PatternKey in r && r[PatternKey] == e.pattern
    ensures AfterKey in r <==> e.after.Some?
    ensures BeforePlaceKey in r <==> e.before.Some?
    ensures AfterPlaceKey in r <==> e.afterPlace.Some?
    ensures e.after.Some? ==> r[AfterKey] == e.after.value
    ensures e.before.Some? ==> r[BeforePlaceKey] == Name(e.before.value)
    ensures e.afterPlace.Some? ==> r[AfterPlaceKey] == Name(e.afterPlace.value)
  {
    var base := map[PatternKey := e.pattern];
    var withAfter := if e.after.Some? then base[AfterKey := e.after.value] else base;
    var withBefore := if e.before.Some? then withAfter[BeforePlaceKey := Name(e.before.value)] else withAfter;
    if e.afterPlace.Some? then withBefore[AfterPlaceKey := Name(e.afterPlace.value)] else withBefore
  }

  /**
   * An optional place key, read with the six-place enum's `fromName`: absent
   * gives no place, and so does a name none of its places has.
   */
  function PlaceEntry(data: map<string, string>, key: string): (r: Option<Place>)
    ensures r.Some? ==> key in data && IsLegacyPlace(r.value) && EqualsIgnoreCase(Name(r.value), data[key])
    ensures r.None? ==> key !in data || forall q :: IsLegacyPlace(q) ==> !EqualsIgnoreCase(Name(q), data[key])
  {
    if key in data then LegacyFromName(data[key]) else None
  }

  /** The after-text read back: a missing key reads as `null`. */
  function AfterEntry(data: map<string, string>): (r: Option<string>)
    ensures r.Some? <==> AfterKey in data
    ensures r.Some? ==> r.value == data[AfterKey]
  {
    if AfterKey in data then Some(data[AfterKey]) else None
  }

  /**
   * `deserialize`. `None` where the plugin would fail: a missing or invalid
   * pattern makes `Pattern.compile` throw. A missing after-text is kept as
   * `null`.
   */
  function Deserialize(rx: Regex, data: map<string, string>): (r: Option<Edit>)
    ensures r.Some? <==> PatternKey in data && rx.compiles(data[PatternKey])
    ensures r.Some? ==> r.value.pattern == data[PatternKey] && r.value.after == AfterEntry(data)
    ensures r.Some? ==> r.value.before == PlaceEntry(data, BeforePlaceKey)
    ensures r.Some? ==> r.value.afterPlace == PlaceEntry(data, AfterPlaceKey)
    ensures r.Some? ==> LegacyEdit(r.value)
  {
    if PatternKey !in data then None
    else NewEdit(rx, data[PatternKey], PlaceEntry(data, BeforePlaceKey), AfterEntry(data), PlaceEntry(data, AfterPlaceKey))
  }

  /** Writing an edit of the six-place enum to the configuration and reading it back gives the same edit. */
  lemma DeserializeSerialize(rx: Regex, e: Edit)
    requires rx.compiles(e.pattern) && LegacyEdit(e)
    ensures Deserialize(rx, Serialize(e)) == Some(e)
  {
    if e.before.Some? {
      LegacyFromNameOfName(e.before.value, Name(e.before.value));
    }
    if e.afterPlace.Some? {
      LegacyFromNameOfName(e.afterPlace.value, Name(e.afterPlace.value));
    }
  }

  /** A place name that resolves to no place leaves the edit place-agnostic. */
  lemma UnknownPlaceName(rx: Regex, data: map<string, string>)
    requires BeforePlaceKey in data && LegacyFromName(data[BeforePlaceKey]).None?
    requires Deserialize(rx, data).Some?
    ensures Deserialize(rx, data).value.before.None?
  {
  }

  /**
   * A friendly name is not a stored place: "Game Chat" reads as no place,
   * though the twelve-place lookup resolves it.
   */
  lemma FriendlyNameNotStored(rx: Regex, data: map<string, string>)
    requires BeforePlaceKey in data && data[BeforePlaceKey] == "Game Chat"
    requires Deserialize(rx, data).Some?
    ensures Deserialize(rx, data).value.before.None?
    ensures FromName(data[BeforePlaceKey]) == Some(GameChat)
  {
    FromNameOfFriendlyName(GameChat);
    GameChatNotLegacyName();
  }

  /** No enum name of the six places matches the friendly name "Game Chat" in any case. */
  lemma GameChatNotLegacyName()
    ensures forall q :: IsLegacyPlace(q) ==> !EqualsIgnoreCase(Name(q), "Game Chat")
  {
    forall q | IsLegacyPlace(q) ensures !EqualsIgnoreCase(Name(q), "Game Chat") {
      if q == GameChat {
        assert ToUpper(Name(q))[4] != ToUpper("Game Chat")[4];
      } else {
        assert |Name(q)| != 9;
      }
    }
  }
}
