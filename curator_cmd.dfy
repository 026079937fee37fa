/**
 * The `CuratorCmd` object: it holds the parsed configuration, the
 * `curator_settings` table and the command list, and updates them in place.
 * The configuration file, the environment, the set of zone names pytz knows
 * and the regular-expression compiler are given to the constructor.
 */
module Curator {
  import opened Wrappers
  import opened Config
  import opened OrderedDict
  import opened Commands
  import Validation
  import Build

  class CuratorCmd {
    /** `self.conf`, as the parser returned it; check_config stores the resolved timezone in it. */
    var conf: Config
    /** The process environment. */
    const env: map<string, string>
    /** The strings `pytz.timezone` accepts. */
    const zones: set<string>
    /** Whether `re.compile` accepts a string. */
    const compiles: string -> bool
    const curatorLogLevel: string
    var curatorSettings: Build.Settings
    var commands: seq<string>

    /** `__init__`: the settings table holds an empty `delete` table and no command is built yet. */
    constructor (parsed: Config, env: map<string, string>, zones: set<string>, compiles: string -> bool)
      ensures this.conf == parsed && this.env == env && this.zones == zones && this.compiles == compiles
      ensures curatorLogLevel == LogLevel(env)
      ensures curatorSettings == Build.InitialSettings && commands == []
    {
      this.conf := parsed;
      this.env := env;
      this.zones := zones;
      this.compiles := compiles;
      curatorLogLevel := LogLevel(env);
      curatorSettings := Build.InitialSettings;
      commands := [];
    }

    /**
     * `check_config`: the error it raises, or None. On success the
     * configuration holds the resolved timezone; on an error it is left as it
     * was. The settings and the commands are not touched.
     */
    method CheckConfig() returns (err: Option<Error>)
      modifies this
      ensures var r := Validation.CheckConfig(old(conf), env, zones, compiles);
        && (r.Err? ==> err == Some(r.error) && conf == old(conf))
        && (r.Ok? ==> err.None? && conf == r.value)
      ensures curatorSettings == old(curatorSettings) && commands == old(commands)
    {
      if IsEmpty(conf) {
        return Some(NoConfiguration);
      }
      var i := 0;
      while i < |conf.entries|
        invariant 0 <= i <= |conf.entries| && conf == old(conf)
        invariant Validation.CheckEntries(conf.entries, compiles) == Validation.CheckEntries(conf.entries[i..], compiles)
      {
        var e := Validation.CheckEntry(conf.entries[i].0, conf.entries[i].1, compiles);
        assert conf.entries[i..][1..] == conf.entries[i + 1..];
        if e.Some? {
          return e;
        }
        i := i + 1;
      }
      var tz := Validation.TimezoneSetting(conf, env);
      if tz == TzName("") {
        return None;
      }
      if tz.Zone? || tz.name !in zones {
        return Some(InvalidTimezone(tz.name));
      }
      if conf.defaults.None? {
        return Some(TimezoneUnexpected(tz.name));
      }
      conf := conf.(defaults := Some(conf.defaults.value.(timezone := Some(Zone(tz.name)))));
      return None;
    }

    /**
     * `build_cmd`: the walk over the configuration, which updates the
     * settings table in place, then the emission, which appends to the command
     * list. The new state and the error raised are those of Build.BuildCmd.
     */
    method BuildCmd() returns (err: Option<Error>)
      modifies this
      ensures var b := Build.BuildCmd(old(conf), env, curatorLogLevel, old(curatorSettings), old(commands));
        curatorSettings == b.settings && commands == b.commands && err == b.failed
      ensures conf == old(conf)
    {
      var dr := DefaultIndex(conf, env, curatorLogLevel);
      if dr.Err? {
        return Some(dr.error);
      }
      var defaultCommand := dr.value;
      var conInfo := ConnectionInfo(env);
      var size: Option<string> := None;
      ghost var walk := Build.Fold(Build.Acc(dr.value, curatorSettings, None, None), Build.Items(conf.entries));
      var i := 0;
      while i < |conf.entries|
        invariant 0 <= i <= |conf.entries| && conf == old(conf) && commands == old(commands)
        invariant Build.Fold(Build.Acc(defaultCommand, curatorSettings, size, None), Build.Items(conf.entries[i..])) == walk
      {
        var key := conf.entries[i].0;
        var p := conf.entries[i].1;
        ItemsStep(conf.entries, i);
        if key != DefaultsKey {
          ghost var before := Build.Acc(defaultCommand, curatorSettings, size, None);
          Build.FoldAppend(before, Build.OpItems(key, p, p.ops), Build.Items(conf.entries[i + 1..]));
          var e;
          defaultCommand, size, e := AddProject(key, p, defaultCommand, size);
          if e.Some? {
            return e;
          }
        } else {
          assert [] + Build.Items(conf.entries[i + 1..]) == Build.Items(conf.entries[i + 1..]);
        }
        i := i + 1;
      }
      assert conf.entries[i..] == [];
      commands := commands + [defaultCommand];
      err := EmitAll(conInfo, size);
    }

    /**
     * The walk over one project's keys (lines 113-139): each allowed
     * operation extends the default command and records its pattern's
     * thresholds, and `size` becomes its size unit.
     */
    method AddProject(key: string, p: Project, cmd0: string, size0: Option<string>)
      returns (cmd: string, size: Option<string>, err: Option<Error>)
      modifies this
      ensures var a := Build.Fold(Build.Acc(cmd0, old(curatorSettings), size0, None), Build.OpItems(key, p, p.ops));
        && curatorSettings == a.settings && err == a.failed
        && (err.None? ==> cmd == a.cmd && size == a.size)
      ensures conf == old(conf) && commands == old(commands)
    {
      cmd, size := cmd0, size0;
      ghost var walk := Build.Fold(Build.Acc(cmd0, curatorSettings, size0, None), Build.OpItems(key, p, p.ops));
      var j := 0;
      while j < |p.ops|
        invariant 0 <= j <= |p.ops| && conf == old(conf) && commands == old(commands)
        invariant Build.Fold(Build.Acc(cmd, curatorSettings, size, None), Build.OpItems(key, p, p.ops[j..])) == walk
      {
        var op := p.ops[j].0;
        var block := p.ops[j].1;
        OpItemsStep(key, p, p.ops, j);
        Build.FoldCons(Build.Acc(cmd, curatorSettings, size, None), Build.OpItems(key, p, p.ops[j..]));
        if op in AllowedOperations {
          if block.unit.None? {
            return cmd, size, Some(MissingKey("unit"));
          }
          if block.count.None? {
            return cmd, size, Some(MissingKey("count"));
          }
          if block.sizeUnit.None? {
            return cmd, size, Some(MissingKey("size_unit"));
          }
          if block.quota.None? {
            return cmd, size, Some(MissingKey("quota"));
          }
          if p.rawRegex.None? {
            return cmd, size, Some(MissingKey(RawRegexKey));
          }
          var raw := p.rawRegex.value;
          var thisProject := Pattern(key, raw);
          var table := Get(curatorSettings, op);
          if table.None? {
            return cmd, size, Some(MissingKey(op));
          }
          cmd := cmd + ExcludeClause(key, raw);
          var limits := map[block.unit.value := block.count.value][block.sizeUnit.value := block.quota.value];
          curatorSettings := Put(curatorSettings, op, Put(table.value, thisProject, limits));
          size := Some(block.sizeUnit.value);
        }
        j := j + 1;
      }
      assert p.ops[j..] == [];
      err := None;
    }

    /** The emission (lines 142-157): an age and a disk-space command per recorded pattern, in table order. */
    method EmitAll(conInfo: string, size: Option<string>) returns (err: Option<Error>)
      modifies this
      ensures var e := Build.Emit(Build.Emission(old(commands), None), Build.Targets(curatorSettings), curatorLogLevel, conInfo, size);
        commands == e.cmds && err == e.failed
      ensures conf == old(conf) && curatorSettings == old(curatorSettings)
    {
      ghost var emission := Build.Emit(Build.Emission(commands, None), Build.Targets(curatorSettings), curatorLogLevel, conInfo, size);
      var k := 0;
      while k < |curatorSettings|
        invariant 0 <= k <= |curatorSettings| && conf == old(conf) && curatorSettings == old(curatorSettings)
        invariant Build.Emit(Build.Emission(commands, None), Build.Targets(curatorSettings[k..]), curatorLogLevel, conInfo, size) == emission
      {
        var op := curatorSettings[k].0;
        var table := curatorSettings[k].1;
        TargetsStep(curatorSettings, k);
        Build.EmitAppend(Build.Emission(commands, None), Build.TableTargets(op, table), Build.Targets(curatorSettings[k + 1..]),
                         curatorLogLevel, conInfo, size);
        err := EmitOperation(op, table, conInfo, size);
        if err.Some? {
          return;
        }
        k := k + 1;
      }
      assert curatorSettings[k..] == [];
      return None;
    }

    /** The commands of one operation's table. */
    method EmitOperation(op: string, table: Build.Table, conInfo: string, size: Option<string>) returns (err: Option<Error>)
      modifies this
      ensures var e := Build.Emit(Build.Emission(old(commands), None), Build.TableTargets(op, table), curatorLogLevel, conInfo, size);
        commands == e.cmds && err == e.failed
      ensures conf == old(conf) && curatorSettings == old(curatorSettings)
    {
      ghost var emission := Build.Emit(Build.Emission(commands, None), Build.TableTargets(op, table), curatorLogLevel, conInfo, size);
      var m := 0;
      while m < |table|
        invariant 0 <= m <= |table| && conf == old(conf) && curatorSettings == old(curatorSettings)
        invariant Build.Emit(Build.Emission(commands, None), Build.TableTargets(op, table[m..]), curatorLogLevel, conInfo, size) == emission
      {
        var pattern := table[m].0;
        var limits := table[m].1;
        TableTargetsStep(op, table, m);
        Build.EmitCons(Build.Emission(commands, None), Build.TableTargets(op, table[m..]), curatorLogLevel, conInfo, size);
        var unit := if "months" in limits then "months" else "days";
        if unit !in limits {
          return Some(MissingKey(unit));
        }
        ghost var before := commands;
        var age := AgeCommand(curatorLogLevel, conInfo, op, pattern, unit, limits[unit]);
        commands := commands + [age];
        if size.None? {
          return Some(UnboundLocal("size"));
        }
        if size.value !in limits {
          return Some(MissingKey(size.value));
        }
        var disk := DiskCommand(curatorLogLevel, conInfo, op, pattern, limits[size.value]);
        commands := commands + [disk];
        assert commands == before + [age, disk];
        m := m + 1;
      }
      assert table[m..] == [];
      return None;
    }

    /** `build_cmd_list`: check, build, and the command list, or the first error raised. */
    method BuildCmdList() returns (r: Result<seq<string>, Error>)
      modifies this
      ensures var c := Validation.CheckConfig(old(conf), env, zones, compiles);
        && (c.Err? ==> r == Err(c.error) && conf == old(conf)
                       && curatorSettings == old(curatorSettings) && commands == old(commands))
        && (c.Ok? ==>
              var b := Build.BuildCmd(c.value, env, curatorLogLevel, old(curatorSettings), old(commands));
              && conf == c.value && curatorSettings == b.settings && commands == b.commands
              && r == (if b.failed.Some? then Err(b.failed.value) else Ok(b.commands)))
      ensures r.Ok? ==> ResolvedDefaults(old(conf), GetDefaults(), env, zones)
    {
      ghost var parsed := conf;
      var err := CheckConfig();
      if err.Some? {
        return Err(err.value);
      }
      DefaultsAfterCheck(parsed, env, zones, compiles);
      err := BuildCmd();
      if err.Some? {
        return Err(err.value);
      }
      return Ok(commands);
    }

    /** `get_defaults`: the `.defaults` block, or an empty one. */
    function GetDefaults(): (d: Defaults)
      reads this
      ensures conf.defaults.Some? ==> d == conf.defaults.value
      ensures conf.defaults.None? ==> d.delete.None? && d.timezone.None? && d.runHour.None? && d.runMinute.None?
    {
      DefaultsOf(conf)
    }
  }

  // ---------------------------------------------------------------------
  // One loop iteration of a walk, stated on its reference functions
  // ---------------------------------------------------------------------

  lemma ItemsStep(entries: seq<(string, Project)>, i: nat)
    requires i < |entries|
    ensures Build.Items(entries[i..]) == Build.ItemsOf(entries[i].0, entries[i].1) + Build.Items(entries[i + 1..])
  {
    assert entries[i..][1..] == entries[i + 1..];
  }

  lemma OpItemsStep(key: string, p: Project, ops: seq<(string, OpBlock)>, j: nat)
    requires j < |ops|
    ensures Build.OpItems(key, p, ops[j..]) != []
    ensures Build.OpItems(key, p, ops[j..])[0] == Build.Item(key, p, ops[j].0, ops[j].1)
    ensures Build.OpItems(key, p, ops[j..])[1..] == Build.OpItems(key, p, ops[j + 1..])
  {
    assert ops[j..][1..] == ops[j + 1..];
  }

  lemma TargetsStep(settings: Build.Settings, k: nat)
    requires k < |settings|
    ensures Build.Targets(settings[k..]) == Build.TableTargets(settings[k].0, settings[k].1) + Build.Targets(settings[k + 1..])
  {
    assert settings[k..][1..] == settings[k + 1..];
  }

  lemma TableTargetsStep(op: string, table: Build.Table, m: nat)
    requires m < |table|
    ensures Build.TableTargets(op, table[m..]) != []
    ensures Build.TableTargets(op, table[m..])[0] == Build.Target(op, table[m].0, table[m].1)
    ensures Build.TableTargets(op, table[m..])[1..] == Build.TableTargets(op, table[m + 1..])
  {
    assert table[m..][1..] == table[m + 1..];
  }

  // ---------------------------------------------------------------------
  // `build_cmd_list` on a fresh object
  // ---------------------------------------------------------------------

  /** The command list a fresh object's `build_cmd_list` returns, or what it raises. */
  function CommandList(conf: Config, env: map<string, string>, zones: set<string>, compiles: string -> bool): Result<seq<string>, Error> {
    match Validation.CheckConfig(conf, env, zones, compiles)
    case Err(e) => Err(e)
    case Ok(c) =>
      var b := Build.BuildCmd(c, env, LogLevel(env), Build.InitialSettings, []);
      if b.failed.Some? then Err(b.failed.value) else Ok(b.commands)
  }

  /**
   * What `get_defaults` returns once the check has passed: the delete policy,
   * run hour and run minute of `.defaults` as parsed, and for the timezone the
   * zone the setting resolved to (a name pytz knows) or, when the setting is
   * empty, what `.defaults` held.
   */
  predicate ResolvedDefaults(parsed: Config, d: Defaults, env: map<string, string>, zones: set<string>) {
    var d0 := DefaultsOf(parsed);
    var tz := Validation.TimezoneSetting(parsed, env);
    && d.delete == d0.delete && d.runHour == d0.runHour && d.runMinute == d0.runMinute
    && (if tz == TzName("") then d.timezone == d0.timezone
        else tz.TzName? && tz.name in zones && d.timezone == Some(Zone(tz.name)))
  }

  /**
   * After a successful check the defaults hold the parsed policy and run time,
   * and the timezone is absent, the empty string, or a resolved zone pytz knows.
   */
  lemma DefaultsAfterCheck(conf: Config, env: map<string, string>, zones: set<string>, compiles: string -> bool)
    requires Validation.CheckConfig(conf, env, zones, compiles).Ok?
    ensures ResolvedDefaults(conf, DefaultsOf(Validation.CheckConfig(conf, env, zones, compiles).value), env, zones)
    ensures var tz := DefaultsOf(Validation.CheckConfig(conf, env, zones, compiles).value).timezone;
      tz.None? || tz == Some(TzName("")) || (tz.value.Zone? && tz.value.name in zones)
  {
    Validation.CheckConfigOk(conf, env, zones, compiles);
  }

  /** Storing the resolved timezone does not change what build_cmd does. */
  lemma CheckKeepsCommands(conf: Config, env: map<string, string>, zones: set<string>, compiles: string -> bool,
                           level: string, settings: Build.Settings, commands: seq<string>)
    requires Validation.CheckConfig(conf, env, zones, compiles).Ok?
    ensures Build.BuildCmd(Validation.CheckConfig(conf, env, zones, compiles).value, env, level, settings, commands)
         == Build.BuildCmd(conf, env, level, settings, commands)
  {
    var c := Validation.CheckConfig(conf, env, zones, compiles).value;
    Validation.CheckConfigOk(conf, env, zones, compiles);
    assert c.defaults.Some? == conf.defaults.Some? && DefaultsOf(c).delete == DefaultsOf(conf).delete;
    assert DefaultIndex(c, env, level) == DefaultIndex(conf, env, level);
  }

  /** An empty configuration yields no command list at all. */
  lemma EmptyConfigNoCommands(conf: Config, env: map<string, string>, zones: set<string>, compiles: string -> bool)
    requires IsEmpty(conf)
    ensures CommandList(conf, env, zones, compiles) == Err(NoConfiguration)
  {
  }

  /**
   * A command list is returned only for a configuration whose every key meets
   * the rules; it is the default command with one exclude clause per accepted
   * operation, then an age and a disk-space command per recorded pattern.
   */
  lemma CommandListOk(conf: Config, env: map<string, string>, zones: set<string>, compiles: string -> bool)
    requires CommandList(conf, env, zones, compiles).Ok?
    ensures forall i :: 0 <= i < |conf.entries| ==> Validation.EntryAccepted(conf.entries[i].0, conf.entries[i].1, compiles)
    ensures var items := Build.Items(conf.entries);
      var t := Build.Recorded(items);
      var cs := CommandList(conf, env, zones, compiles).value;
      && DefaultIndex(conf, env, LogLevel(env)).Ok?
      && |cs| == 1 + 2 * |t|
      && cs == [DefaultIndex(conf, env, LogLevel(env)).value + Build.Excludes(items)]
               + Build.Pairs(Build.TableTargets(Build.DeleteOp, t), LogLevel(env), ConnectionInfo(env), Build.LastSize(items))
  {
    Validation.CheckConfigOk(conf, env, zones, compiles);
    CheckKeepsCommands(conf, env, zones, compiles, LogLevel(env), Build.InitialSettings, []);
    Build.FreshBuildOk(conf, env, LogLevel(env));
    Build.FreshBuildSucceeds(conf, env, LogLevel(env));
    Build.FreshBuildShape(conf, env, LogLevel(env));
  }
}
