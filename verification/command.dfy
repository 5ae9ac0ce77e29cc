/**
 * The `/message-editor` command (`MessageEditorCommand`) and its tab
 * completion (`MessageEditorCommandTabCompleter`): reload, open the editor
 * for a shown message, switch analyzing of places on and off.
 */
module Command {
  import opened Wrappers
  import opened Strings
  import opened Versions
  import opened Places
  import opened Edits
  import opened EditData
  import opened Plugin
  import Menu
  import ChatSession

  /** Who runs the command: the `messageeditor.use` permission, and the player's id when it is a player. */
  datatype Sender = Sender(mayUse: bool, player: Option<nat>)

  /** What the sender is told (message texts are not modelled). */
  datatype Outcome =
    | Denied
    | Help
    | Usage(subcommand: string)
    | Reloaded
    | ReloadThrew
    | PlayersOnly
    | NoData(id: string)
    | MenuOpened
    | Toggled(activate: bool, affected: nat)
    | AllDeactivated

  /** The command's effect: the state, the outcome, and whether open editor menus are closed. */
  datatype CommandEffect = CommandEffect(state: State, outcome: Outcome, closeMenus: bool)

  /** What `reloadConfig` reads: the configuration's edit list and the edits directory. */
  datatype Config = Config(edits: seq<Edit>, dir: EditsDir)

  // ---------------------------------------------------------------------------
  // activate / deactivate
  // ---------------------------------------------------------------------------

  /** The supported place an argument names, if any. */
  function NamedPlace(server: Version, argument: string): (r: Option<Place>)
    ensures r.Some? ==> Supported(r.value, server) && FromName(argument) == r
    ensures r.None? ==> FromName(argument).None? || !Supported(FromName(argument).value, server)
  {
    match FromName(argument)
    case None => None
    case Some(p) => if Supported(p, server) then Some(p) else None
  }

  /** The supported place of each argument, in order. */
  function Lookups(server: Version, arguments: seq<string>): (r: seq<Option<Place>>)
    ensures |r| == |arguments|
    ensures forall i :: 0 <= i < |arguments| ==> r[i] == NamedPlace(server, arguments[i])
    decreases |arguments|
  {
    if arguments == [] then []
    else [NamedPlace(server, arguments[0])] + Lookups(server, arguments[1..])
  }

  /** The place of an option, as a set of at most one. */
  function Single(o: Option<Place>): set<Place> {
    if o.Some? then {o.value} else {}
  }

  /** The places the looked-up arguments name. */
  function Named(looked: seq<Option<Place>>): (r: set<Place>)
    decreases |looked|
  {
    if looked == [] then {} else Single(looked[0]) + Named(looked[1..])
  }

  /** A place is named exactly when some argument names it. */
  lemma {:induction false} NamedMembers(looked: seq<Option<Place>>, p: Place)
    ensures p in Named(looked) <==> Some(p) in looked
    decreases |looked|
  {
    if looked != [] {
      NamedMembers(looked[1..], p);
      assert Some(p) in looked <==> looked[0] == Some(p) || Some(p) in looked[1..] by {
        assert looked == [looked[0]] + looked[1..];
      }
    }
  }

  /** The places after the loop, and `placesAffected`. */
  datatype Toggle = Toggle(analyzing: set<Place>, affected: nat)

  /** One iteration: the place the argument names flips when its flag is not yet as wanted. */
  function ToggleOne(analyzing: set<Place>, first: Option<Place>, on: bool): (r: Toggle)
    ensures on ==> r.analyzing == analyzing + Single(first)
    ensures !on ==> r.analyzing == analyzing - Single(first)
    ensures r.affected == (if first.Some? && (first.value in analyzing) != on then 1 else 0)
  {
    if first.Some? && (first.value in analyzing) != on then
      Toggle(if on then analyzing + {first.value} else analyzing - {first.value}, 1)
    else Toggle(analyzing, 0)
  }

  /**
   * The loop over the arguments of `activate` (`on`) or `deactivate`, each
   * already looked up: an argument naming a supported place whose flag is not
   * yet as wanted flips it and counts one; the others are skipped.
   */
  function ToggleAll(analyzing: set<Place>, looked: seq<Option<Place>>, on: bool): (r: Toggle)
    ensures r.affected <= |looked|
    ensures on ==> analyzing <= r.analyzing
    ensures !on ==> r.analyzing <= analyzing
    decreases |looked|
  {
    if looked == [] then Toggle(analyzing, 0)
    else
      var step := ToggleOne(analyzing, looked[0], on);
      var rest := ToggleAll(step.analyzing, looked[1..], on);
      Toggle(rest.analyzing, step.affected + rest.affected)
  }

  /** Activating switches on the named places and counts those that were off. */
  lemma {:induction false} ActivateCounts(analyzing: set<Place>, looked: seq<Option<Place>>)
    ensures ToggleAll(analyzing, looked, true).analyzing == analyzing + Named(looked)
    ensures ToggleAll(analyzing, looked, true).affected == |Named(looked) - analyzing|
    decreases |looked|
  {
    if looked != [] {
      var one := Single(looked[0]);
      ActivateCounts(analyzing + one, looked[1..]);
      if looked[0].Some? && looked[0].value !in analyzing {
        CountNew(looked[0].value, Named(looked[1..]), analyzing);
      } else {
        CountKnown(one, Named(looked[1..]), analyzing);
      }
    }
  }

  /** Deactivating switches off the named places and counts those that were on. */
  lemma {:induction false} DeactivateCounts(analyzing: set<Place>, looked: seq<Option<Place>>)
    ensures ToggleAll(analyzing, looked, false).analyzing == analyzing - Named(looked)
    ensures ToggleAll(analyzing, looked, false).affected == |Named(looked) * analyzing|
    decreases |looked|
  {
    if looked != [] {
      var one := Single(looked[0]);
      DeactivateCounts(analyzing - one, looked[1..]);
      if looked[0].Some? && looked[0].value in analyzing {
        CountOn(looked[0].value, Named(looked[1..]), analyzing);
      } else {
        CountOff(one, Named(looked[1..]), analyzing);
      }
    }
  }

  /** A place switched on now counts one more than the rest switched on after it. */
  lemma CountNew<T>(x: T, rest: set<T>, a: set<T>)
    requires x !in a
    ensures |({x} + rest) - a| == 1 + |rest - (a + {x})|
    ensures a + ({x} + rest) == (a + {x}) + rest
  {
    assert ({x} + rest) - a == {x} + (rest - (a + {x}));
  }

  /** A place already on counts nothing. */
  lemma CountKnown<T>(one: set<T>, rest: set<T>, a: set<T>)
    requires |one| <= 1 && (one <= a || one == {})
    ensures |(one + rest) - a| == |rest - (a + one)|
    ensures a + (one + rest) == (a + one) + rest
  {
    assert (one + rest) - a == rest - (a + one);
  }

  /** A place switched off now counts one more than the rest switched off after it. */
  lemma CountOn<T>(x: T, rest: set<T>, a: set<T>)
    requires x in a
    ensures |({x} + rest) * a| == 1 + |rest * (a - {x})|
    ensures a - ({x} + rest) == (a - {x}) - rest
  {
    assert ({x} + rest) * a == {x} + (rest * (a - {x}));
  }

  /** A place already off counts nothing. */
  lemma CountOff<T>(one: set<T>, rest: set<T>, a: set<T>)
    requires one * a == {}
    ensures |(one + rest) * a| == |rest * (a - one)|
    ensures a - (one + rest) == (a - one) - rest
  {
    forall x | x in a ensures x !in one {
      assert x !in one * a;
    }
    assert a - one == a;
    assert (one + rest) * a == rest * a;
  }

  /**
   * Activating places none of which was active and then deactivating the
   * same arguments restores the flags, and both report the same count.
   */
  lemma ActivateThenDeactivate(analyzing: set<Place>, looked: seq<Option<Place>>)
    requires Named(looked) * analyzing == {}
    ensures var on := ToggleAll(analyzing, looked, true);
      var off := ToggleAll(on.analyzing, looked, false);
      off.analyzing == analyzing && off.affected == on.affected
  {
    var n := Named(looked);
    var on := ToggleAll(analyzing, looked, true);
    ActivateCounts(analyzing, looked);
    DeactivateCounts(on.analyzing, looked);
    assert n - analyzing == n;
    assert (analyzing + n) - n == analyzing;
    assert n * (analyzing + n) == n;
  }

  /** Naming a place twice flips it once. */
  lemma RepeatedArgumentCountsOnce(analyzing: set<Place>, place: Option<Place>, on: bool)
    ensures ToggleAll(analyzing, [place, place], on) == ToggleAll(analyzing, [place], on)
  {
    assert [place, place][1..] == [place];
    assert [place][1..] == [];
  }

  // ---------------------------------------------------------------------------
  // onCommand
  // ---------------------------------------------------------------------------

  /** `reload`: the rewrite cache and the sessions are dropped and the edits loaded again. */
  function ReloadState(s: State, env: Env, config: Config): (r: State)
    ensures r.cache == map[] && r.sessions == map[]
    ensures r.edits == Reload(env.rx, config.edits, config.dir).edits
    ensures r.dataCache == s.dataCache && r.analyzing == s.analyzing
  {
    s.(cache := map[], sessions := map[], edits := Reload(env.rx, config.edits, config.dir).edits)
  }

  /** `onCommand`. */
  function OnCommand(s: State, env: Env, config: Config, sender: Sender, arguments: seq<string>): (r: CommandEffect)
    ensures !sender.mayUse ==> r == CommandEffect(s, Denied, false)
    ensures r.closeMenus <==> r.outcome == Reloaded
    ensures r.outcome == Reloaded || r.outcome == ReloadThrew ==> r.state == ReloadState(s, env, config)
    ensures sender.mayUse && |arguments| == 1 && EqualsIgnoreCase(arguments[0], "reload") ==>
      (r.outcome == Reloaded <==> !Reload(env.rx, config.edits, config.dir).aborted)
      && (r.outcome == ReloadThrew <==> Reload(env.rx, config.edits, config.dir).aborted)
    ensures r.outcome == MenuOpened ==>
      sender.player.Some? && |arguments| == 2 && GetData(s, arguments[1]).Some?
      && r.state == Menu.OpenMenu(s, sender.player.value, arguments[1], GetData(s, arguments[1]).value)
    ensures r.outcome.Toggled? ==> r.state.edits == s.edits && r.state.sessions == s.sessions && r.state.cache == s.cache
    ensures r.outcome.Toggled? ==> |arguments| >= 2
    ensures r.outcome.Toggled? && |arguments| >= 2 ==>
      r.state.analyzing == ToggleAll(s.analyzing, Lookups(env.server, arguments[1..]), r.outcome.activate).analyzing
    ensures r.outcome == AllDeactivated ==> r.state == s.(analyzing := {})
    ensures r.outcome !in {Reloaded, ReloadThrew, MenuOpened, AllDeactivated} && !r.outcome.Toggled? ==> r.state == s
  {
    if !sender.mayUse then CommandEffect(s, Denied, false)
    else if |arguments| == 0 then CommandEffect(s, Help, false)
    else if EqualsIgnoreCase(arguments[0], "reload") then
      if |arguments| != 1 then CommandEffect(s, Usage("reload"), false)
      else if Reload(env.rx, config.edits, config.dir).aborted then CommandEffect(ReloadState(s, env, config), ReloadThrew, false)
      else CommandEffect(ReloadState(s, env, config), Reloaded, true)
    else if EqualsIgnoreCase(arguments[0], "edit") then
      if sender.player.None? then CommandEffect(s, PlayersOnly, false)
      else if |arguments| != 2 then CommandEffect(s, Usage("edit"), false)
      else
        match GetData(s, arguments[1])
        case None => CommandEffect(s, NoData(arguments[1]), false)
        case Some(data) => CommandEffect(Menu.OpenMenu(s, sender.player.value, arguments[1], data), MenuOpened, false)
    else if EqualsIgnoreCase(arguments[0], "activate") || EqualsIgnoreCase(arguments[0], "deactivate") then
      var on := EqualsIgnoreCase(arguments[0], "activate");
      if |arguments| == 1 then CommandEffect(s, Usage(if on then "activate" else "deactivate"), false)
      else
        var t := ToggleAll(s.analyzing, Lookups(env.server, arguments[1..]), on);
        CommandEffect(s.(analyzing := t.analyzing), Toggled(on, t.affected), false)
    else if EqualsIgnoreCase(arguments[0], "deactivate-all") || EqualsIgnoreCase(arguments[0], "deactivateall") then
      if |arguments| != 1 then CommandEffect(s, Usage("deactivate-all"), false)
      else CommandEffect(s.(analyzing := {}), AllDeactivated, false)
    else CommandEffect(s, Help, false)
  }

  /**
   * After a reload nobody is editing, even when `reloadConfig` throws: the
   * sessions are cleared before it runs, so no chat line is taken as editor
   * input. The reload is reported only when no edits file failed.
   */
  lemma ReloadEndsEditing(s: State, env: Env, config: Config, sender: Sender, player: nat, line: string)
    requires sender.mayUse
    ensures var r := OnCommand(s, env, config, sender, ["reload"]);
      (r.outcome == Reloaded <==> !Reload(env.rx, config.edits, config.dir).aborted)
      && (r.outcome == Reloaded || r.outcome == ReloadThrew)
      && !ChatSession.OnPlayerChat(r.state, env, player, false, line).cancel
  {
  }

  /** `edit` on a recorded id opens the editor with a session for exactly that message. */
  lemma EditOpensRecordedMessage(s: State, env: Env, config: Config, sender: Sender, id: string)
    requires sender.mayUse && sender.player.Some? && id in s.dataCache
    ensures var r := OnCommand(s, env, config, sender, ["edit", id]);
      r.outcome == MenuOpened
      && GetSession(r.state, sender.player.value) == Some(FromMessageData(id, s.dataCache[id]))
  {
  }

  // ---------------------------------------------------------------------------
  // Tab completion
  // ---------------------------------------------------------------------------

  /** The first-argument candidates, in the order they are offered. */
  const Subcommands: seq<string> := ["reload", "edit", "activate", "deactivate", "deactivate-all", "deactivateall", "migrate"]

  /** The candidates that start with `prefix`, in order. */
  function Matching(candidates: seq<string>, prefix: string): (r: seq<string>)
    ensures forall c :: c in r <==> c in candidates && StartsWith(c, prefix)
    ensures |r| <= |candidates|
    ensures (forall c :: c in candidates ==> StartsWith(c, prefix)) ==> r == candidates
    decreases |candidates|
  {
    if candidates == [] then []
    else (if StartsWith(candidates[0], prefix) then [candidates[0]] else []) + Matching(candidates[1..], prefix)
  }

  /** A place offered after `activate` (or `deactivate`): its name extends the prefix, it is supported, and its flag is not yet as wanted. */
  predicate Offered(p: Place, server: Version, analyzing: set<Place>, prefix: string, activate: bool) {
    StartsWith(Name(p), prefix) && Supported(p, server) && activate != (p in analyzing)
  }

  /** The offered places among `places`, in order. */
  function OfferedPlaces(places: seq<Place>, server: Version, analyzing: set<Place>, prefix: string, activate: bool): (r: seq<Place>)
    ensures forall p :: p in r <==> p in places && Offered(p, server, analyzing, prefix, activate)
    decreases |places|
  {
    if places == [] then []
    else
      (if Offered(places[0], server, analyzing, prefix, activate) then [places[0]] else [])
      + OfferedPlaces(places[1..], server, analyzing, prefix, activate)
  }

  /** The enum names of places, in order. */
  function Names(places: seq<Place>): (r: seq<string>)
    ensures |r| == |places| && forall k :: 0 <= k < |places| ==> r[k] == Name(places[k])
  {
    seq(|places|, k requires 0 <= k < |places| => Name(places[k]))
  }

  /** The completions of one argument after `activate` (or `deactivate`): the names of the places offered for its upper-cased text. */
  function Block(server: Version, analyzing: set<Place>, argument: string, activate: bool): (r: seq<string>)
    ensures forall c :: c in r <==> exists p :: p in OfferedPlaces(AllPlaces, server, analyzing, ToUpper(argument), activate) && c == Name(p)
  {
    NamesOf(OfferedPlaces(AllPlaces, server, analyzing, ToUpper(argument), activate));
    Names(OfferedPlaces(AllPlaces, server, analyzing, ToUpper(argument), activate))
  }

  /**
   * The place completions for the arguments after the first, one block per
   * argument: a name is completed exactly when some argument's block holds it.
   */
  function PlaceCompletions(server: Version, analyzing: set<Place>, arguments: seq<string>, activate: bool): (r: seq<string>)
    ensures forall c :: c in r <==> exists k :: 0 <= k < |arguments| && c in Block(server, analyzing, arguments[k], activate)
    decreases |arguments|
  {
    if arguments == [] then []
    else
      var head := Block(server, analyzing, arguments[0], activate);
      var rest := PlaceCompletions(server, analyzing, arguments[1..], activate);
      CompletionsCons(arguments, head, rest, (a: string) => Block(server, analyzing, a, activate));
      head + rest
  }

  /** The step of `PlaceCompletions`: the first argument's block, then the rest's. */
  lemma CompletionsCons(arguments: seq<string>, head: seq<string>, rest: seq<string>, block: string -> seq<string>)
    requires |arguments| > 0 && head == block(arguments[0])
    requires forall c :: c in rest <==> exists k :: 0 <= k < |arguments[1..]| && c in block(arguments[1..][k])
    ensures forall c :: c in head + rest <==> exists k :: 0 <= k < |arguments| && c in block(arguments[k])
  {
    forall c ensures c in head + rest <==> exists k :: 0 <= k < |arguments| && c in block(arguments[k]) {
      if exists k :: 0 <= k < |arguments| && c in block(arguments[k]) {
        var k :| 0 <= k < |arguments| && c in block(arguments[k]);
        if k > 0 {
          assert arguments[1..][k - 1] == arguments[k];
        }
      }
      if c in rest {
        var k :| 0 <= k < |arguments[1..]| && c in block(arguments[1..][k]);
        assert arguments[k + 1] == arguments[1..][k];
      }
    }
  }

  /** Matching keeps the candidates' order: the matches of a concatenation are the matches of each part in turn. */
  lemma {:induction false} MatchingAppend(a: seq<string>, b: seq<string>, prefix: string)
    ensures Matching(a + b, prefix) == Matching(a, prefix) + Matching(b, prefix)
    decreases |a|
  {
    if a != [] {
      assert (a + b)[0] == a[0] && (a + b)[1..] == a[1..] + b;
      MatchingAppend(a[1..], b, prefix);
    } else {
      assert a + b == b;
    }
  }

  /** One block per argument, in argument order: the completions of a concatenation are those of each part in turn. */
  lemma {:induction false} PlaceCompletionsAppend(server: Version, analyzing: set<Place>, a: seq<string>, b: seq<string>, activate: bool)
    ensures PlaceCompletions(server, analyzing, a + b, activate)
      == PlaceCompletions(server, analyzing, a, activate) + PlaceCompletions(server, analyzing, b, activate)
    decreases |a|
  {
    if a != [] {
      assert (a + b)[0] == a[0] && (a + b)[1..] == a[1..] + b;
      PlaceCompletionsAppend(server, analyzing, a[1..], b, activate);
      var head := Block(server, analyzing, a[0], activate);
      StringsRegroup(head, PlaceCompletions(server, analyzing, a[1..], activate), PlaceCompletions(server, analyzing, b, activate));
    } else {
      assert a + b == b;
    }
  }

  lemma StringsRegroup(x: seq<string>, y: seq<string>, z: seq<string>)
    ensures x + (y + z) == (x + y) + z
  {
  }

  /** An argument given twice is completed twice: nothing removes duplicates. */
  lemma {:induction false} RepeatedArgument(server: Version, analyzing: set<Place>, argument: string, activate: bool)
    ensures PlaceCompletions(server, analyzing, [argument, argument], activate)
      == Block(server, analyzing, argument, activate) + Block(server, analyzing, argument, activate)
  {
    var block := Block(server, analyzing, argument, activate);
    assert [argument, argument][1..] == [argument];
    assert [argument][1..] == [];
    assert PlaceCompletions(server, analyzing, [argument], activate) == block + [];
    assert block + [] == block;
  }

  /** The names of some places are exactly the names of its members. */
  lemma NamesOf(places: seq<Place>)
    ensures forall c :: c in Names(places) <==> exists p :: p in places && c == Name(p)
  {
    var names := Names(places);
    forall c ensures c in names <==> exists p :: p in places && c == Name(p) {
      if c in names {
        var j :| 0 <= j < |names| && names[j] == c;
        assert places[j] in places && c == Name(places[j]);
      }
      if exists p :: p in places && c == Name(p) {
        var p :| p in places && c == Name(p);
        var j :| 0 <= j < |places| && places[j] == p;
        assert names[j] == c;
      }
    }
  }

  /** `onTabComplete`: `None` is the `null` returned without the permission. */
  function Complete(s: State, env: Env, sender: Sender, arguments: seq<string>): (r: Option<seq<string>>)
    ensures r.None? <==> !sender.mayUse
    ensures r.Some? && |arguments| == 1 ==>
      forall c :: c in r.value <==> c in Subcommands && StartsWith(c, ToLower(arguments[0]))
    ensures r.Some? && |arguments| == 0 ==> r.value == []
    ensures r.Some? && |arguments| > 1 && !EqualsIgnoreCase(arguments[0], "activate") && !EqualsIgnoreCase(arguments[0], "deactivate") ==>
      r.value == []
    ensures r.Some? && |arguments| > 1 && (EqualsIgnoreCase(arguments[0], "activate") || EqualsIgnoreCase(arguments[0], "deactivate")) ==>
      r.value == PlaceCompletions(env.server, s.analyzing, arguments[1..], EqualsIgnoreCase(arguments[0], "activate"))
  {
    if !sender.mayUse then None
    else
      var first := if |arguments| == 1 then Matching(Subcommands, ToLower(arguments[0])) else [];
      var places :=
        if |arguments| > 1 && (EqualsIgnoreCase(arguments[0], "activate") || EqualsIgnoreCase(arguments[0], "deactivate")) then
          PlaceCompletions(env.server, s.analyzing, arguments[1..], EqualsIgnoreCase(arguments[0], "activate"))
        else [];
      Some(first + places)
  }

  /** An empty first argument is completed with every subcommand, in order. */
  lemma CompleteEmptyArgument(s: State, env: Env, sender: Sender)
    requires sender.mayUse
    ensures Complete(s, env, sender, [""]) == Some(Subcommands)
  {
    CompleteFirstArgument(s, env, sender, "");
    assert ToLower("") == "";
    MatchingEmpty(Subcommands);
  }

  /** A lone argument is completed with the matching subcommands, in their order and nothing else. */
  lemma CompleteFirstArgument(s: State, env: Env, sender: Sender, argument: string)
    requires sender.mayUse
    ensures Complete(s, env, sender, [argument]) == Some(Matching(Subcommands, ToLower(argument)))
  {
    var first := Matching(Subcommands, ToLower(argument));
    assert first + [] == first;
  }

  /** Every candidate starts with the empty prefix. */
  lemma MatchingEmpty(candidates: seq<string>)
    ensures Matching(candidates, "") == candidates
  {
    assert forall c :: c in candidates ==> StartsWith(c, "");
  }

  /**
   * A place completed after `activate` (`on`) or `deactivate` is one the
   * command then counts: running it with the completed name flips exactly
   * that place.
   */
  lemma CompletedPlaceFlips(server: Version, analyzing: set<Place>, prefix: string, on: bool, p: Place)
    requires p in OfferedPlaces(AllPlaces, server, analyzing, prefix, on)
    ensures var t := ToggleAll(analyzing, Lookups(server, [Name(p)]), on);
      t.affected == 1 && t.analyzing == (if on then analyzing + {p} else analyzing - {p})
  {
    LookupName(server, p);
    FlipOne(analyzing, p, on);
  }

  /**
   * Every completion offered after `activate` (`on`) or `deactivate` is the
   * name of a place that running the command with that name alone flips.
   */
  lemma CompletionFlips(s: State, env: Env, sender: Sender, arguments: seq<string>, c: string)
    requires sender.mayUse && |arguments| > 1
    requires EqualsIgnoreCase(arguments[0], "activate") || EqualsIgnoreCase(arguments[0], "deactivate")
    requires c in Complete(s, env, sender, arguments).value
    ensures var on := EqualsIgnoreCase(arguments[0], "activate");
      exists p ::
        c == Name(p) && (p in s.analyzing) != on
        && ToggleAll(s.analyzing, Lookups(env.server, [c]), on) == Toggle(if on then s.analyzing + {p} else s.analyzing - {p}, 1)
  {
    var on := EqualsIgnoreCase(arguments[0], "activate");
    var later := arguments[1..];
    assert c in PlaceCompletions(env.server, s.analyzing, later, on);
    var k :| 0 <= k < |later| && c in Block(env.server, s.analyzing, later[k], on);
    BlockFlips(env.server, s.analyzing, later[k], on, c);
  }

  /** A name in one argument's block is that of a place the command flips. */
  lemma BlockFlips(server: Version, analyzing: set<Place>, argument: string, on: bool, c: string)
    requires c in Block(server, analyzing, argument, on)
    ensures exists p ::
      c == Name(p) && (p in analyzing) != on
      && ToggleAll(analyzing, Lookups(server, [c]), on) == Toggle(if on then analyzing + {p} else analyzing - {p}, 1)
  {
    var offered := OfferedPlaces(AllPlaces, server, analyzing, ToUpper(argument), on);
    var p :| p in offered && c == Name(p);
    assert Offered(p, server, analyzing, ToUpper(argument), on);
    CompletedPlaceFlips(server, analyzing, ToUpper(argument), on, p);
  }

  /** A supported place's enum name looks up to that place. */
  lemma LookupName(server: Version, p: Place)
    requires Supported(p, server)
    ensures Lookups(server, [Name(p)]) == [Some(p)]
  {
    FromNameOfName(p);
  }

  /** One argument naming a place whose flag is not yet as wanted flips it and counts one. */
  lemma FlipOne(analyzing: set<Place>, p: Place, on: bool)
    requires (p in analyzing) != on
    ensures ToggleAll(analyzing, [Some(p)], on) == Toggle(if on then analyzing + {p} else analyzing - {p}, 1)
  {
    assert [Some(p)][1..] == [];
  }

  /** An unknown first word shows the help and changes nothing. */
  lemma UnknownShowsHelp(s: State, env: Env, config: Config, sender: Sender, arguments: seq<string>)
    requires sender.mayUse && |arguments| > 0
    requires forall w :: w in ["reload", "edit", "activate", "deactivate", "deactivate-all", "deactivateall"] ==> !EqualsIgnoreCase(arguments[0], w)
    ensures OnCommand(s, env, config, sender, arguments) == CommandEffect(s, Help, false)
  {
  }

  /** "migrate" is offered for a first argument "m". */
  lemma MigrateOffered(s: State, env: Env, sender: Sender)
    requires sender.mayUse
    ensures var r := Complete(s, env, sender, ["m"]);
      r.Some? && "migrate" in r.value
  {
    assert ToLower("m") == "m";
    assert "migrate" in Subcommands && StartsWith("migrate", "m");
  }

  /** ...yet the command has no such subcommand and shows the help. */
  lemma MigrateUnknown(s: State, env: Env, config: Config, sender: Sender)
    requires sender.mayUse
    ensures OnCommand(s, env, config, sender, ["migrate"]) == CommandEffect(s, Help, false)
  {
    forall w | w in ["reload", "edit", "activate", "deactivate", "deactivate-all", "deactivateall"]
      ensures !EqualsIgnoreCase("migrate", w)
    {
      assert |ToUpper(w)| == |w| != 7 == |ToUpper("migrate")|;
    }
    UnknownShowsHelp(s, env, config, sender, ["migrate"]);
  }
}
