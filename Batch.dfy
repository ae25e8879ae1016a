/**
  The build commands: `build_all_plugins` walks the plugins directory,
  splits the plugins into those to build and those to skip, builds the
  former one by one and counts the outcomes; `build_plugin` does the same
  for one plugin. The rebuild decision and the build itself are oracles.
 */
module Batch {
  import opened Wrappers
  import ProcessGuard

  datatype DirEntry = DirEntry(name: string, isDir: bool)

  /** The plugins directory as `build_all_plugins` finds it. */
  datatype PluginsDir =
    | Missing                         // the directory does not exist
    | ListError                       // reading it, or one of its entries, fails
    | Listing(entries: seq<DirEntry>) // its entries in `read_dir` order

  /** Counts reported at the end of a batch. */
  datatype Report = Report(toBuild: seq<string>, skipped: seq<string>, succeeded: nat, failed: nat)

  const NothingDone: Report := Report([], [], 0, 0)

  /** The plugin sources: the sub-directories, in listing order. */
  function PluginIds(entries: seq<DirEntry>): (r: seq<string>)
    ensures |r| <= |entries|
  {
    if entries == [] then []
    else
      var rest := PluginIds(entries[..|entries| - 1]);
      var e := entries[|entries| - 1];
      if e.isDir then rest + [e.name] else rest
  }

  lemma {:induction false} PluginIdsMembership(entries: seq<DirEntry>, id: string)
    ensures id in PluginIds(entries) <==> exists k :: 0 <= k < |entries| && entries[k] == DirEntry(id, true)
  {
    if entries != [] {
      var init := entries[..|entries| - 1];
      PluginIdsMembership(init, id);
      assert forall k :: 0 <= k < |init| ==> entries[k] == init[k];
      if id in PluginIds(init) {
        var k :| 0 <= k < |init| && init[k] == DirEntry(id, true);
        assert entries[k] == DirEntry(id, true);
      }
    }
  }

  method CollectPluginIds(entries: seq<DirEntry>) returns (plugins: seq<string>)
    ensures plugins == PluginIds(entries)
  {
    plugins := [];
    for i := 0 to |entries|
      invariant plugins == PluginIds(entries[..i])
    {
      assert entries[..i + 1][..i] == entries[..i];
      if entries[i].isDir {
        plugins := plugins + [entries[i].name];
      }
    }
    assert entries[..|entries|] == entries;
  }

  /** Forced, or the decision did not say "up to date" (an error counts as "build"). */
  predicate NeedsBuild(force: bool, decide: string -> Result<bool>, id: string)
  {
    force || decide(id) != Ok(false)
  }

  /** The plugins on one side of the split, in their original order. */
  function Side(ps: seq<string>, force: bool, decide: string -> Result<bool>, build: bool): (r: seq<string>)
    ensures |r| <= |ps|
    ensures forall k :: 0 <= k < |r| ==> NeedsBuild(force, decide, r[k]) == build
  {
    if ps == [] then []
    else
      var rest := Side(ps[..|ps| - 1], force, decide, build);
      var id := ps[|ps| - 1];
      if NeedsBuild(force, decide, id) == build then rest + [id] else rest
  }

  /** The two sides together hold each plugin as often as the listing does. */
  lemma {:induction false} SidesPartition(ps: seq<string>, force: bool, decide: string -> Result<bool>)
    ensures multiset(Side(ps, force, decide, true)) + multiset(Side(ps, force, decide, false)) == multiset(ps)
  {
    if ps != [] {
      var init := ps[..|ps| - 1];
      SidesPartition(init, force, decide);
      assert ps == init + [ps[|ps| - 1]];
    }
  }

  lemma {:induction false} ForcedBuildsAll(ps: seq<string>, decide: string -> Result<bool>)
    ensures Side(ps, true, decide, true) == ps && Side(ps, true, decide, false) == []
  {
    if ps != [] {
      ForcedBuildsAll(ps[..|ps| - 1], decide);
      assert ps == ps[..|ps| - 1] + [ps[|ps| - 1]];
    }
  }

  /** The loop that fills `to_build` and `skipped`. */
  method PartitionPlugins(plugins: seq<string>, force: bool, decide: string -> Result<bool>)
    returns (toBuild: seq<string>, skipped: seq<string>)
    ensures toBuild == Side(plugins, force, decide, true)
    ensures skipped == Side(plugins, force, decide, false)
    ensures force ==> toBuild == plugins && skipped == []
    ensures multiset(toBuild) + multiset(skipped) == multiset(plugins)
  {
    toBuild, skipped := [], [];
    for i := 0 to |plugins|
      invariant toBuild == Side(plugins[..i], force, decide, true)
      invariant skipped == Side(plugins[..i], force, decide, false)
    {
      assert plugins[..i + 1][..i] == plugins[..i];
      var id := plugins[i];
      if force {
        toBuild := toBuild + [id];
      } else {
        match decide(id)
        case Ok(true) => toBuild := toBuild + [id];
        case Ok(false) => skipped := skipped + [id];
        case Err(_) => toBuild := toBuild + [id];
      }
    }
    assert plugins[..|plugins|] == plugins;
    SidesPartition(plugins, force, decide);
    if force {
      ForcedBuildsAll(plugins, decide);
    }
  }

  /** A plugin is skipped only when not forced and its decision said "up to date". */
  lemma SkippedOnlyWhenUpToDate(ps: seq<string>, force: bool, decide: string -> Result<bool>, id: string)
    requires id in Side(ps, force, decide, false)
    ensures !force && decide(id) == Ok(false)
  {
  }

  /** Each listed plugin lands on exactly one side. */
  lemma ExactlyOneSide(ps: seq<string>, force: bool, decide: string -> Result<bool>, id: string)
    requires id in ps
    ensures (id in Side(ps, force, decide, true)) != (id in Side(ps, force, decide, false))
  {
    SidesPartition(ps, force, decide);
    assert multiset(ps)[id] > 0;
    var t, s := Side(ps, force, decide, true), Side(ps, force, decide, false);
    assert id in t ==> NeedsBuild(force, decide, id);
    assert id in s ==> !NeedsBuild(force, decide, id);
  }

  /** How many of `ps` fail to build. */
  function Failures(ps: seq<string>, build: string -> bool): (n: nat)
    ensures n <= |ps|
  {
    if ps == [] then 0 else Failures(ps[..|ps| - 1], build) + (if build(ps[|ps| - 1]) then 0 else 1)
  }

  lemma {:induction false} FailuresPositive(ps: seq<string>, build: string -> bool)
    ensures Failures(ps, build) > 0 <==> exists k :: 0 <= k < |ps| && !build(ps[k])
  {
    if ps != [] {
      var init := ps[..|ps| - 1];
      FailuresPositive(init, build);
      assert forall k :: 0 <= k < |init| ==> ps[k] == init[k];
      if Failures(init, build) > 0 {
        var k :| 0 <= k < |init| && !build(init[k]);
        assert !build(ps[k]);
      }
    }
  }

  /** The build loop: every plugin is tried, and counted once as a success or a failure. */
  method BuildEach(toBuild: seq<string>, build: string -> bool) returns (succeeded: nat, failed: nat)
    ensures succeeded + failed == |toBuild|
    ensures failed == Failures(toBuild, build)
  {
    succeeded, failed := 0, 0;
    for i := 0 to |toBuild|
      invariant succeeded + failed == i
      invariant failed == Failures(toBuild[..i], build)
    {
      assert toBuild[..i + 1][..i] == toBuild[..i];
      if build(toBuild[i]) {
        succeeded := succeeded + 1;
      } else {
        failed := failed + 1;
      }
    }
    assert toBuild[..|toBuild|] == toBuild;
  }

  /**
    `build_all_plugins`. `appCargo` is the host application's
    `app/Cargo.toml`, which the process guard reads before any build: an
    unreadable one fails the command, while a process that survives being
    killed does not. `decide` is the rebuild decision and `build` the
    outcome of building one plugin (and recording it in the cache).
   */
  method BuildAllPlugins(dir: PluginsDir, appCargo: ProcessGuard.AppCargo, force: bool,
                         decide: string -> Result<bool>, build: string -> bool)
    returns (r: Result<()>, report: Report)
    ensures dir.Missing? || dir.ListError? ==> r.Err? && report == NothingDone
    ensures dir.Listing? && PluginIds(dir.entries) == [] ==> r.Ok? && report == NothingDone
    ensures dir.Listing? && PluginIds(dir.entries) != [] && appCargo == ProcessGuard.AppCargoUnreadable ==>
      r.Err? && report == NothingDone
    ensures dir.Listing? && PluginIds(dir.entries) != [] && appCargo != ProcessGuard.AppCargoUnreadable ==>
      && report.toBuild == Side(PluginIds(dir.entries), force, decide, true)
      && report.skipped == Side(PluginIds(dir.entries), force, decide, false)
      && report.succeeded + report.failed == |report.toBuild|
      && report.failed == Failures(report.toBuild, build)
      && (r.Err? <==> report.failed > 0)
  {
    match dir
    case Missing =>
      return Err("Plugins directory not found"), NothingDone;
    case ListError =>
      return Err("cannot read the plugins directory"), NothingDone;
    case Listing(entries) =>
      var plugins := CollectPluginIds(entries);
      if plugins == [] {
        return Ok(()), NothingDone;
      }
      var app := ProcessGuard.AppName(appCargo);
      if app.Err? {
        return Err(app.error), NothingDone;
      }
      var toBuild, skipped := PartitionPlugins(plugins, force, decide);
      if toBuild == [] {
        return Ok(()), Report(toBuild, skipped, 0, 0);
      }
      var succeeded, failed := BuildEach(toBuild, build);
      report := Report(toBuild, skipped, succeeded, failed);
      if failed > 0 {
        return Err("Some plugins failed to build"), report;
      }
      return Ok(()), report;
  }

  /** The batch fails exactly when some plugin it tried to build failed. */
  lemma BatchFailsIffABuildFails(toBuild: seq<string>, build: string -> bool)
    ensures Failures(toBuild, build) > 0 <==> exists id :: id in toBuild && !build(id)
  {
    FailuresPositive(toBuild, build);
    if exists id :: id in toBuild && !build(id) {
      var id :| id in toBuild && !build(id);
      var k :| 0 <= k < |toBuild| && toBuild[k] == id;
      assert !build(toBuild[k]);
    }
  }

  /**
    `build_plugin`: one plugin, skipped only when not forced and up to date;
    the process guard comes first, as in the batch.
   */
  method BuildPlugin(id: string, appCargo: ProcessGuard.AppCargo, force: bool,
                     decide: string -> Result<bool>, build: string -> bool)
    returns (r: Result<()>, built: bool)
    ensures appCargo == ProcessGuard.AppCargoUnreadable ==> r.Err? && !built
    ensures appCargo != ProcessGuard.AppCargoUnreadable ==> (built <==> NeedsBuild(force, decide, id))
    ensures appCargo != ProcessGuard.AppCargoUnreadable && !built ==> r.Ok?
    ensures built ==> (r.Ok? <==> build(id))
  {
    var app := ProcessGuard.AppName(appCargo);
    if app.Err? {
      return Err(app.error), false;
    }
    if !force {
      if decide(id) == Ok(false) {
        return Ok(()), false;
      }
    }
    if build(id) {
      return Ok(()), true;
    }
    return Err("build failed"), true;
  }

  /** A single build and a batch over one plugin directory agree on whether it is built. */
  lemma SingleAgreesWithBatch(id: string, force: bool, decide: string -> Result<bool>)
    ensures Side([id], force, decide, true) == (if NeedsBuild(force, decide, id) then [id] else [])
  {
    assert [id][..0] == [];
  }
}
