/**
 * The plugin object (`MessageEditorPlugin`): the start-up version check, the
 * loading of edits from the configuration and the edits directory, and the
 * three stores the listeners share (the rewrite cache keyed by original text,
 * the shown-message cache keyed by id, and the editing sessions keyed by
 * player). Cache expiry after fifteen idle minutes is not modelled: a cache
 * is a map.
 */
module Plugin {
  import opened Wrappers
  import opened Strings
  import opened Versions
  import opened Places
  import opened Externals
  import opened Edits
  import opened EditData

  /** What the rewrite cache stores for an original text: the edit that matched and the result. */
  datatype CacheEntry = CacheEntry(edit: Edit, after: string)

  /** The plugin's mutable state. `analyzing` holds the places whose analyzing flag is on. */
  datatype State = State(
    edits: seq<Edit>,
    cache: map<string, CacheEntry>,
    dataCache: map<string, MessageData>,
    sessions: map<nat, Session>,
    analyzing: set<Place>)

  /**
   * What the plugin reads from its surroundings: the server version, the
   * regex engine and text library, whether PlaceholderAPI and
   * MVdWPlaceholderAPI are installed, and the
   * `attach-special-hover-and-click-events` setting.
   */
  datatype Env = Env(server: Version, rx: Regex, lib: TextLib, placeholderApi: bool, mvdwApi: bool, decorate: bool)

  // ---------------------------------------------------------------------------
  // onLoad: the version check
  // ---------------------------------------------------------------------------

  /**
   * The loop over the places in `onLoad`: `acc` is replaced by a place's
   * minimum version whenever that version is strictly lower.
   */
  function LowestFrom(ps: seq<Place>, acc: Option<Version>): (r: Version)
    requires acc.Some? || |ps| > 0
    ensures (acc.Some? && r == acc.value) || exists i :: 0 <= i < |ps| && r == MinimumVersion(ps[i])
    decreases |ps|
  {
    if ps == [] then acc.value
    else
      var v := MinimumVersion(ps[0]);
      var r := LowestFrom(ps[1..], if acc.None? || Compare(acc.value, v) > 0 then Some(v) else acc);
      assert forall i :: 0 <= i < |ps[1..]| ==> ps[1..][i] == ps[i + 1];
      r
  }

  /** The loop's result is at or below every version it saw and is one of them. */
  lemma {:induction false} LowestFromBounds(ps: seq<Place>, acc: Option<Version>)
    requires acc.Some? || |ps| > 0
    ensures forall i :: 0 <= i < |ps| ==> AtOrAbove(MinimumVersion(ps[i]), LowestFrom(ps, acc))
    ensures acc.Some? ==> AtOrAbove(acc.value, LowestFrom(ps, acc))
    ensures (acc.Some? && LowestFrom(ps, acc) == acc.value)
         || exists i :: 0 <= i < |ps| && LowestFrom(ps, acc) == MinimumVersion(ps[i])
    decreases |ps|
  {
    if ps != [] {
      var v := MinimumVersion(ps[0]);
      var next := if acc.None? || Compare(acc.value, v) > 0 then Some(v) else acc;
      var r := LowestFrom(ps[1..], next);
      LowestFromBounds(ps[1..], next);
      assert forall i :: 1 <= i < |ps| ==> ps[i] == ps[1..][i - 1];
      AtOrAboveTotalOrder(next.value, v, r);
      AtOrAboveTotalOrder(acc.GetOr(v), next.value, r);
    }
  }

  /** `onLoad`'s required version: the lowest minimum version over all places. */
  function RequiredVersion(): (r: Version)
    ensures forall p :: AtOrAbove(MinimumVersion(p), r)
  {
    LowestOverAllPlaces();
    LowestFrom(AllPlaces, None)
  }

  lemma LowestOverAllPlaces()
    ensures forall p :: AtOrAbove(MinimumVersion(p), LowestFrom(AllPlaces, None))
    ensures exists p :: MinimumVersion(p) == LowestFrom(AllPlaces, None)
  {
    var r := LowestFrom(AllPlaces, None);
    LowestFromBounds(AllPlaces, None);
    forall p ensures AtOrAbove(MinimumVersion(p), r) {
      assert AllPlaces[Ordinal(p)] == p;
    }
    var i :| 0 <= i < |AllPlaces| && r == MinimumVersion(AllPlaces[i]);
    assert MinimumVersion(AllPlaces[i]) == r;
  }

  /** The requirement is the bountiful update, the oldest minimum of any place. */
  lemma RequiredIsBountiful()
    ensures RequiredVersion() == BountifulUpdate
  {
    LowestOverAllPlaces();
    LowestIsBountiful(RequiredVersion());
  }

  lemma LowestIsBountiful(r: Version)
    requires forall p :: AtOrAbove(MinimumVersion(p), r)
    requires exists p :: MinimumVersion(p) == r
    ensures r == BountifulUpdate
  {
    assert AtOrAbove(MinimumVersion(GameChat), r);
    var p :| MinimumVersion(p) == r;
    AtOrAboveTotalOrder(r, BountifulUpdate, r);
  }

  /** `onLoad` goes on only on a server at or above the required version. */
  predicate LoadsOn(server: Version) {
    AtOrAbove(server, RequiredVersion())
  }

  /** The plugin disables itself exactly when the server supports no place at all. */
  lemma LoadsIffSomePlaceSupported(server: Version)
    ensures LoadsOn(server) <==> exists p :: Supported(p, server)
  {
    RequiredIsBountiful();
    if LoadsOn(server) {
      assert Supported(GameChat, server);
    } else if p :| Supported(p, server) {
      AtOrAboveTotalOrder(server, MinimumVersion(p), BountifulUpdate);
      assert false;
    }
  }

  // ---------------------------------------------------------------------------
  // reloadConfig: edits from the configuration list and the edits directory
  // ---------------------------------------------------------------------------

  /** One file of the edits directory, already read as a YAML map. */
  datatype EditFile = EditFile(name: string, data: map<string, string>)

  /** The edits directory: it could not be created, or these files are in it. */
  datatype EditsDir = Uncreatable | Listing(files: seq<EditFile>)

  /** The outcome of loading: the edit list, and whether a file's edit threw part-way. */
  datatype Loaded = Loaded(edits: seq<Edit>, aborted: bool)

  /** A file is read unless its name starts with '#' or does not end in ".yml". */
  predicate Accepted(name: string) {
    !(|name| > 0 && name[0] == '#') && EndsWith(name, ".yml")
  }

  /** The files the loop reads, in listing order. */
  function AcceptedFiles(files: seq<EditFile>): (r: seq<EditFile>)
    ensures |r| <= |files|
    ensures forall k :: 0 <= k < |r| ==> Accepted(r[k].name)
  {
    if files == [] then []
    else if Accepted(files[0].name) then [files[0]] + AcceptedFiles(files[1..])
    else AcceptedFiles(files[1..])
  }

  /** Every read file holds a valid edit. */
  predicate AllValid(rx: Regex, files: seq<EditFile>) {
    forall k :: 0 <= k < |files| ==> Deserialize(rx, files[k].data).Some?
  }

  /** The edits of files that are all valid, in order. */
  function EditsOf(rx: Regex, files: seq<EditFile>): (r: seq<Edit>)
    requires AllValid(rx, files)
    ensures |r| == |files|
    ensures forall k :: 0 <= k < |r| ==> Some(r[k]) == Deserialize(rx, files[k].data)
  {
    if files == [] then [] else [Deserialize(rx, files[0].data).value] + EditsOf(rx, files[1..])
  }

  /**
   * The file loop of `reloadConfig`. A file whose edit cannot be built stops
   * the loop: the exception leaves the edits appended so far.
   */
  function LoadFiles(rx: Regex, files: seq<EditFile>): (r: Loaded)
    ensures |r.edits| <= |files|
  {
    if files == [] then Loaded([], false)
    else if !Accepted(files[0].name) then LoadFiles(rx, files[1..])
    else match Deserialize(rx, files[0].data)
      case None => Loaded([], true)
      case Some(e) =>
        var rest := LoadFiles(rx, files[1..]);
        Loaded([e] + rest.edits, rest.aborted)
  }

  /** Skipped files play no part: loading them all is loading the accepted ones. */
  lemma {:induction false} LoadFilesSkips(rx: Regex, files: seq<EditFile>)
    ensures LoadFiles(rx, files) == LoadFiles(rx, AcceptedFiles(files))
  {
    if files != [] {
      LoadFilesSkips(rx, files[1..]);
      if Accepted(files[0].name) {
        assert ([files[0]] + AcceptedFiles(files[1..]))[1..] == AcceptedFiles(files[1..]);
      }
    }
  }

  /** Loading aborts exactly when some read file is invalid; otherwise it yields every read file's edit. */
  lemma {:induction false} LoadFilesComplete(rx: Regex, files: seq<EditFile>)
    ensures !LoadFiles(rx, files).aborted <==> AllValid(rx, files)
    ensures AllValid(rx, files) ==> LoadFiles(rx, files).edits == EditsOf(rx, files)
    requires forall k :: 0 <= k < |files| ==> Accepted(files[k].name)
  {
    if files != [] {
      LoadFilesComplete(rx, files[1..]);
      assert forall k :: 1 <= k < |files| ==> files[k] == files[1..][k - 1];
      if AllValid(rx, files[1..]) && Deserialize(rx, files[0].data).Some? {
        assert AllValid(rx, files) by {
          forall k | 0 <= k < |files| ensures Deserialize(rx, files[k].data).Some? {
            if k > 0 { assert files[k] == files[1..][k - 1]; }
          }
        }
      }
    }
  }

  /** `reloadConfig`: the configuration list, then the edits directory's files. */
  function Reload(rx: Regex, config: seq<Edit>, dir: EditsDir): (r: Loaded)
    ensures |config| <= |r.edits| && r.edits[..|config|] == config
    ensures dir.Uncreatable? ==> r == Loaded(config, false)
  {
    match dir
    case Uncreatable => Loaded(config, false)
    case Listing(files) =>
      var loaded := LoadFiles(rx, files);
      assert (config + loaded.edits)[..|config|] == config;
      Loaded(config + loaded.edits, loaded.aborted)
  }

  /** With a valid directory, the edit list is the configuration list followed by the files' edits. */
  lemma ReloadAppends(rx: Regex, config: seq<Edit>, files: seq<EditFile>)
    requires AllValid(rx, AcceptedFiles(files))
    ensures Reload(rx, config, Listing(files)) == Loaded(config + EditsOf(rx, AcceptedFiles(files)), false)
  {
    LoadFilesSkips(rx, files);
    LoadFilesComplete(rx, AcceptedFiles(files));
  }

  /**
   * An aborted load stops at the first accepted file whose edit cannot be
   * built: the edits kept are exactly those of the accepted files before it.
   */
  lemma LoadFilesStops(rx: Regex, files: seq<EditFile>)
    ensures var accepted := AcceptedFiles(files); var r := LoadFiles(rx, files);
      r.aborted ==> exists i :: 0 <= i < |accepted| && StopsAt(rx, accepted, i) && r.edits == EditsOf(rx, accepted[..i])
  {
    LoadFilesSkips(rx, files);
    LoadFilesPrefix(rx, AcceptedFiles(files));
  }

  /** File `i` is the first whose edit cannot be built. */
  predicate StopsAt(rx: Regex, files: seq<EditFile>, i: nat)
    requires i < |files|
  {
    AllValid(rx, files[..i]) && Deserialize(rx, files[i].data).None?
  }

  lemma {:induction false} LoadFilesPrefix(rx: Regex, files: seq<EditFile>)
    requires forall k :: 0 <= k < |files| ==> Accepted(files[k].name)
    ensures var r := LoadFiles(rx, files);
      r.aborted ==> exists i :: 0 <= i < |files| && StopsAt(rx, files, i) && r.edits == EditsOf(rx, files[..i])
  {
    var r := LoadFiles(rx, files);
    if r.aborted {
      assert files != [];
      if Deserialize(rx, files[0].data).None? {
        assert files[..0] == [];
        assert StopsAt(rx, files, 0) && r.edits == EditsOf(rx, files[..0]);
      } else {
        var rest := files[1..];
        assert forall k :: 0 <= k < |rest| ==> rest[k] == files[k + 1];
        LoadFilesPrefix(rx, rest);
        var j :| 0 <= j < |rest| && StopsAt(rx, rest, j) && LoadFiles(rx, rest).edits == EditsOf(rx, rest[..j]);
        var before := files[..j + 1];
        assert before[1..] == rest[..j];
        assert AllValid(rx, before) by {
          forall k | 0 <= k < |before| ensures Deserialize(rx, before[k].data).Some? {
            if k > 0 { assert before[k] == rest[..j][k - 1]; }
          }
        }
        assert files[j + 1] == rest[j];
        assert StopsAt(rx, files, j + 1) && r.edits == EditsOf(rx, files[..j + 1]);
      }
    }
  }

  /**
   * The result of `onLoad`: disabled; thrown out of `reloadConfig`, leaving
   * only the edits read so far; or the state the caches and session map
   * start from.
   */
  datatype Start = Disabled | LoadThrew(edits: seq<Edit>) | Started(state: State)

  /**
   * `onLoad`: the version check first, then the configuration, then empty
   * stores. A file that cannot be read throws out of `reloadConfig`, and the
   * stores are never set up.
   */
  function OnLoad(env: Env, config: seq<Edit>, dir: EditsDir): (r: Start)
    ensures r.Disabled? <==> forall p :: !Supported(p, env.server)
    ensures r.LoadThrew? <==> !r.Disabled? && Reload(env.rx, config, dir).aborted
    ensures r.LoadThrew? ==> r.edits == Reload(env.rx, config, dir).edits
    ensures r.Started? ==> r.state.cache == map[] && r.state.dataCache == map[]
    ensures r.Started? ==> r.state.sessions == map[] && r.state.analyzing == {}
    ensures r.Started? ==> r.state.edits == Reload(env.rx, config, dir).edits
    ensures r.Started? && dir.Listing? ==>
      AllValid(env.rx, AcceptedFiles(dir.files)) && r.state.edits == config + EditsOf(env.rx, AcceptedFiles(dir.files))
  {
    LoadsIffSomePlaceSupported(env.server);
    if !LoadsOn(env.server) then Disabled
    else
      var loaded := Reload(env.rx, config, dir);
      if loaded.aborted then LoadThrew(loaded.edits)
      else
        if dir.Listing? then
          LoadFilesSkips(env.rx, dir.files);
          LoadFilesComplete(env.rx, AcceptedFiles(dir.files));
          ReloadAppends(env.rx, config, dir.files);
          Started(State(loaded.edits, map[], map[], map[], {}))
        else Started(State(loaded.edits, map[], map[], map[], {}))
  }

  // ---------------------------------------------------------------------------
  // The edit list and the three stores
  // ---------------------------------------------------------------------------

  /** `addMessageEdit`: the new edit goes last. */
  function AddEdit(s: State, e: Edit): (r: State)
    ensures r.edits == s.edits + [e] && |r.edits| == |s.edits| + 1
    ensures r.edits[|s.edits|] == e && r.edits[..|s.edits|] == s.edits
    ensures r.cache == s.cache && r.dataCache == s.dataCache
    ensures r.sessions == s.sessions && r.analyzing == s.analyzing
  {
    var edits := s.edits + [e];
    assert edits[..|s.edits|] == s.edits;
    s.(edits := edits)
  }

  function GetCached(s: State, before: string): (r: Option<CacheEntry>)
    ensures r.Some? <==> before in s.cache
    ensures r.Some? ==> r.value == s.cache[before]
  {
    if before in s.cache then Some(s.cache[before]) else None
  }

  function CacheMessage(s: State, before: string, e: Edit, after: string): (r: State)
    ensures r.cache.Keys == s.cache.Keys + {before}
    ensures r.edits == s.edits && r.dataCache == s.dataCache
    ensures r.sessions == s.sessions && r.analyzing == s.analyzing
  {
    s.(cache := s.cache[before := CacheEntry(e, after)])
  }

  function Uncache(s: State, before: string): (r: State)
    ensures r.cache.Keys == s.cache.Keys - {before}
    ensures r.edits == s.edits && r.dataCache == s.dataCache
    ensures r.sessions == s.sessions && r.analyzing == s.analyzing
  {
    s.(cache := s.cache - {before})
  }

  function ClearCache(s: State): (r: State)
    ensures r.cache == map[]
    ensures r.edits == s.edits && r.dataCache == s.dataCache
    ensures r.sessions == s.sessions && r.analyzing == s.analyzing
  {
    s.(cache := map[])
  }

  /** A cached entry is read back as stored; other texts read what they read before. */
  lemma CacheThenGet(s: State, before: string, e: Edit, after: string, other: string)
    ensures GetCached(CacheMessage(s, before, e, after), before) == Some(CacheEntry(e, after))
    ensures other != before ==> GetCached(CacheMessage(s, before, e, after), other) == GetCached(s, other)
  {
  }

  /** Uncaching forgets one text only; clearing forgets every text. */
  lemma UncacheThenGet(s: State, before: string, other: string)
    ensures GetCached(Uncache(s, before), before) == None
    ensures other != before ==> GetCached(Uncache(s, before), other) == GetCached(s, other)
    ensures GetCached(ClearCache(s), other) == None
  {
  }

  function GetData(s: State, id: string): (r: Option<MessageData>)
    ensures r.Some? <==> id in s.dataCache
    ensures r.Some? ==> r.value == s.dataCache[id]
  {
    if id in s.dataCache then Some(s.dataCache[id]) else None
  }

  function CacheData(s: State, id: string, d: MessageData): (r: State)
    ensures r.dataCache.Keys == s.dataCache.Keys + {id}
    ensures GetData(r, id) == Some(d)
    ensures forall other :: other != id ==> GetData(r, other) == GetData(s, other)
    ensures r.edits == s.edits && r.cache == s.cache
    ensures r.sessions == s.sessions && r.analyzing == s.analyzing
  {
    s.(dataCache := s.dataCache[id := d])
  }

  function GetSession(s: State, player: nat): (r: Option<Session>)
    ensures r.Some? <==> player in s.sessions
    ensures r.Some? ==> r.value == s.sessions[player]
  {
    if player in s.sessions then Some(s.sessions[player]) else None
  }

  function SetSession(s: State, player: nat, d: Session): (r: State)
    ensures GetSession(r, player) == Some(d)
    ensures forall other :: other != player ==> GetSession(r, other) == GetSession(s, other)
    ensures r.edits == s.edits && r.cache == s.cache
    ensures r.dataCache == s.dataCache && r.analyzing == s.analyzing
  {
    s.(sessions := s.sessions[player := d])
  }

  function RemoveSession(s: State, player: nat): (r: State)
    ensures GetSession(r, player) == None
    ensures forall other :: other != player ==> GetSession(r, other) == GetSession(s, other)
    ensures r.edits == s.edits && r.cache == s.cache
    ensures r.dataCache == s.dataCache && r.analyzing == s.analyzing
  {
    s.(sessions := s.sessions - {player})
  }

  function ClearSessions(s: State): (r: State)
    ensures forall player :: GetSession(r, player) == None
    ensures r.edits == s.edits && r.cache == s.cache
    ensures r.dataCache == s.dataCache && r.analyzing == s.analyzing
  {
    s.(sessions := map[])
  }
}
