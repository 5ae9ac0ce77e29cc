/**
 * The rewrite decision every packet listener shares: the text-keyed cache is
 * asked first; otherwise the first edit in list order whose place filter
 * admits the packet's place and whose pattern matches the whole text wins; a
 * fresh result is replace, then `&` colour translation, then placeholders,
 * and is cached under the original text.
 */
module Rewrite {
  import opened Wrappers
  import opened Places
  import opened Externals
  import opened Edits
  import opened Replacement
  import opened EditData
  import opened Plugin
  import MessageUtils

  /** An edit applies at `place` when it names no place or names this one. */
  predicate Admits(e: Edit, place: Place) {
    e.before.None? || e.before == Some(place)
  }

  /** The loop body's test: the place filter passes and `getMatcher` is non-null. */
  predicate Fires(rx: Regex, e: Edit, place: Place, text: string) {
    Admits(e, place) && GetMatcher(rx, e, text).Some?
  }

  /** Edit `i` fires and no earlier edit does. */
  predicate FirstToFire(rx: Regex, edits: seq<Edit>, place: Place, text: string, i: nat) {
    i < |edits| && Fires(rx, edits[i], place, text)
    && forall j :: 0 <= j < i ==> !Fires(rx, edits[j], place, text)
  }

  /** The loop over the edits from index `k` on; the index of the edit that breaks it. */
  function FirstFiringFrom(rx: Regex, edits: seq<Edit>, place: Place, text: string, k: nat): (r: Option<nat>)
    requires k <= |edits|
    ensures r.Some? ==> k <= r.value < |edits| && Fires(rx, edits[r.value], place, text)
    ensures r.Some? ==> forall j :: k <= j < r.value ==> !Fires(rx, edits[j], place, text)
    ensures r.None? ==> forall j :: k <= j < |edits| ==> !Fires(rx, edits[j], place, text)
    decreases |edits| - k
  {
    if k == |edits| then None
    else if Fires(rx, edits[k], place, text) then Some(k)
    else FirstFiringFrom(rx, edits, place, text, k + 1)
  }

  /** The edit the listener picks: the first in list order that fires, if any. */
  function FirstFiring(rx: Regex, edits: seq<Edit>, place: Place, text: string): (r: Option<nat>)
    ensures r.Some? ==> r.value < |edits| && Fires(rx, edits[r.value], place, text)
    ensures r.Some? ==> forall j :: 0 <= j < r.value ==> !Fires(rx, edits[j], place, text)
    ensures r.None? <==> forall j :: 0 <= j < |edits| ==> !Fires(rx, edits[j], place, text)
  {
    FirstFiringFrom(rx, edits, place, text, 0)
  }

  /** An edit appended by `addMessageEdit` is consulted only when no earlier edit fires. */
  lemma AppendedEditLast(rx: Regex, edits: seq<Edit>, e: Edit, place: Place, text: string)
    ensures FirstFiring(rx, edits, place, text).Some? ==>
      FirstFiring(rx, edits + [e], place, text) == FirstFiring(rx, edits, place, text)
    ensures FirstFiring(rx, edits, place, text).None? ==>
      FirstFiring(rx, edits + [e], place, text) == (if Fires(rx, e, place, text) then Some(|edits|) else None)
  {
    match FirstFiring(rx, edits, place, text)
    case Some(i) => AppendKeepsFirst(rx, edits, e, place, text, i);
    case None => AppendAfterNone(rx, edits, e, place, text);
  }

  lemma AppendKeepsFirst(rx: Regex, edits: seq<Edit>, e: Edit, place: Place, text: string, i: nat)
    requires FirstToFire(rx, edits, place, text, i)
    ensures FirstFiring(rx, edits + [e], place, text) == Some(i)
  {
    var all := edits + [e];
    assert forall j :: 0 <= j <= i ==> all[j] == edits[j];
    FirstIsUnique(rx, all, place, text, i);
  }

  lemma AppendAfterNone(rx: Regex, edits: seq<Edit>, e: Edit, place: Place, text: string)
    requires forall j :: 0 <= j < |edits| ==> !Fires(rx, edits[j], place, text)
    ensures FirstFiring(rx, edits + [e], place, text) == (if Fires(rx, e, place, text) then Some(|edits|) else None)
  {
    var all := edits + [e];
    assert forall j :: 0 <= j < |edits| ==> all[j] == edits[j];
    assert all[|edits|] == e;
    if Fires(rx, e, place, text) {
      FirstIsUnique(rx, all, place, text, |edits|);
    }
  }

  /** At most one index is "the first that fires". */
  lemma FirstIsUnique(rx: Regex, edits: seq<Edit>, place: Place, text: string, i: nat)
    requires FirstToFire(rx, edits, place, text, i)
    ensures FirstFiring(rx, edits, place, text) == Some(i)
  {
  }

  /**
   * A fresh rewrite: `replaceAll` with the edit's after-text, `&` colour
   * translation, PlaceholderAPI when it is installed and, for the listeners
   * that ask for it, MVdWPlaceholderAPI after that. `None` where `replaceAll`
   * throws.
   */
  function Fresh(env: Env, viewer: Viewer, e: Edit, text: string, withMvdw: bool): (r: Option<string>)
    ensures r.None? <==> ReplaceAll(env.rx, Match(e.pattern, text), e.after).None?
  {
    var replaced :- ReplaceAll(env.rx, Match(e.pattern, text), e.after);
    var translated := env.lib.translate(replaced);
    var resolved := if env.placeholderApi then viewer.placeholderApi(translated) else translated;
    Some(if withMvdw && env.mvdwApi then viewer.mvdwPlaceholderApi(resolved) else resolved)
  }

  /**
   * A fresh rewrite of a text the edit's pattern matches in full fails exactly
   * when the edit has no after-text or its after-text is not a valid
   * replacement for the pattern's groups.
   */
  lemma FreshFailsExactly(env: Env, viewer: Viewer, e: Edit, text: string, withMvdw: bool)
    requires ThrowsOnlyOnBadReplacement(env.rx) && env.rx.fullMatch(e.pattern, text)
    ensures Fresh(env, viewer, e, text, withMvdw).None? <==>
      e.after.None? || !Expandable(e.after.value, env.rx.groupCount(e.pattern))
  {
  }

  /** Where the new text comes from. */
  datatype Resolution =
    | NoEdit                              /* no cache entry and no edit fires */
    | Cached(entry: CacheEntry)           /* the cache had the text */
    | Rewritten(edit: Edit, after: string) /* the first firing edit, freshly applied */
    | Threw(edit: Edit)                   /* the first firing edit's `replaceAll` threw */

  /** The cache lookup, then the edit loop, then the fresh rewrite. */
  function Resolve(s: State, env: Env, viewer: Viewer, place: Place, text: string, withMvdw: bool): (r: Resolution)
    ensures text in s.cache <==> r.Cached?
    ensures r.Cached? ==> r.entry == s.cache[text]
    ensures r.NoEdit? <==> text !in s.cache && forall j :: 0 <= j < |s.edits| ==> !Fires(env.rx, s.edits[j], place, text)
    ensures r.Rewritten? ==> exists i: nat :: FirstToFire(env.rx, s.edits, place, text, i)
                                        && r.edit == s.edits[i] && Fresh(env, viewer, r.edit, text, withMvdw) == Some(r.after)
    ensures r.Threw? ==> exists i: nat :: FirstToFire(env.rx, s.edits, place, text, i)
                                        && r.edit == s.edits[i] && Fresh(env, viewer, r.edit, text, withMvdw).None?
  {
    match GetCached(s, text)
    case Some(entry) => Cached(entry)
    case None =>
      match FirstFiring(env.rx, s.edits, place, text)
      case None => NoEdit
      case Some(i) =>
        match Fresh(env, viewer, s.edits[i], text, withMvdw)
        case None => Threw(s.edits[i])
        case Some(after) => Rewritten(s.edits[i], after)
  }

  /** The text after resolution: unchanged, the cached after-text as is, or the fresh one. */
  function After(r: Resolution, text: string): string {
    match r
    case NoEdit => text
    case Cached(entry) => entry.after
    case Rewritten(_, after) => after
    case Threw(_) => text
  }

  /** A fresh result is cached under the original text; nothing else touches the cache. */
  function Remember(s: State, text: string, r: Resolution): (t: State)
    ensures r.Rewritten? ==> t.cache == s.cache[text := CacheEntry(r.edit, r.after)]
    ensures !r.Rewritten? ==> t == s
    ensures t.edits == s.edits && t.dataCache == s.dataCache
    ensures t.sessions == s.sessions && t.analyzing == s.analyzing
  {
    if r.Rewritten? then CacheMessage(s, text, r.edit, r.after) else s
  }

  /** `cacheMessageData(id, new MessageData(place, message, json))` under the message's id. */
  function RememberShown(s: State, place: Place, message: string, json: bool): (t: State)
    ensures MessageUtils.GenerateId(place, message) in t.dataCache
    ensures t.dataCache[MessageUtils.GenerateId(place, message)] == MessageData(place, message, json)
    ensures t.edits == s.edits && t.cache == s.cache
    ensures t.sessions == s.sessions && t.analyzing == s.analyzing
  {
    CacheData(s, MessageUtils.GenerateId(place, message), MessageData(place, message, json))
  }

  /**
   * The cache is keyed by text alone: once a text is cached, every place
   * resolves it to the cached entry, whatever the edit's place filter said.
   */
  lemma CacheIgnoresPlace(s: State, env: Env, viewer: Viewer, p: Place, q: Place, text: string, withMvdw: bool)
    requires text in s.cache
    ensures Resolve(s, env, viewer, p, text, withMvdw) == Resolve(s, env, viewer, q, text, withMvdw)
    ensures After(Resolve(s, env, viewer, p, text, withMvdw), text) == s.cache[text].after
  {
  }

  /**
   * Resolving a text, caching the fresh result and resolving the same text
   * again (at any place) gives the same text back without consulting the edits.
   */
  lemma ResolveRemembered(s: State, env: Env, viewer: Viewer, p: Place, q: Place, text: string, withMvdw: bool)
    ensures var r := Resolve(s, env, viewer, p, text, withMvdw);
      r.Rewritten? ==>
        Resolve(Remember(s, text, r), env, viewer, q, text, withMvdw) == Cached(CacheEntry(r.edit, r.after))
        && After(Resolve(Remember(s, text, r), env, viewer, q, text, withMvdw), text) == After(r, text)
  {
  }
}
