/**
 * The parsed retention configuration the command generator reads, and the
 * errors it raises. The loader produces a mapping; its top-level keys are
 * `.defaults`, `.operations` and one key per project (or raw regular
 * expression), kept here in the loader's iteration order.
 */
module Config {
  import opened Wrappers

  const DefaultsKey := ".defaults"
  const OperationsKey := ".operations"
  const RawRegexKey := "raw_regex"
  const ProjectPrefix := "project."

  /** `allowed_operations`: the operation names build_cmd acts on. */
  const AllowedOperations: seq<string> := ["delete"]

  /** `allowed_params`: keys under a project that are parameters, not operations. */
  const AllowedParams: seq<string> := [RawRegexKey]

  /** `allowed_units`: declared by the class, but no code path checks a unit against it. */
  const AllowedUnits: seq<string> := ["days", "weeks", "months"]

  /** The fields build_cmd reads from one operation block; a missing field is None. */
  datatype OpBlock = OpBlock(unit: Option<string>, count: Option<int>, sizeUnit: Option<string>, quota: Option<int>)

  /**
   * The mapping under a project key: its `raw_regex` flag and its other keys
   * (operation names) in iteration order, each with its block.
   */
  datatype Project = Project(rawRegex: Option<bool>, ops: seq<(string, OpBlock)>)

  /** The `delete` block under `.defaults`. */
  datatype DefaultDelete = DefaultDelete(unit: Option<string>, count: Option<int>)

  /** A timezone setting: the string from the configuration, or the zone check_config resolved it to. */
  datatype Timezone = TzName(name: string) | Zone(name: string)

  datatype Defaults = Defaults(
    delete: Option<DefaultDelete>,
    timezone: Option<Timezone>,
    runHour: Option<int>,
    runMinute: Option<int>)

  /** The whole configuration: the `.defaults` block if present, then every other top-level key with its mapping. */
  datatype Config = Config(defaults: Option<Defaults>, entries: seq<(string, Project)>)

  const NoDefaults := Defaults(None, None, None, None)

  predicate IsEmpty(conf: Config) {
    conf.defaults.None? && conf.entries == []
  }

  /** `conf.get('.defaults', {})` */
  function DefaultsOf(conf: Config): (d: Defaults)
    ensures conf.defaults.None? ==> d == NoDefaults
    ensures conf.defaults.Some? ==> d == conf.defaults.value
  {
    if conf.defaults.Some? then conf.defaults.value else NoDefaults
  }

  /** What the code raises (or exits with) instead of producing a result. */
  datatype Error =
    | NoConfiguration               // 'No configuration supplied.' and exit status 1
    | InvalidRegex(key: string)     // a raw_regex key that does not compile
    | NameTooLong(key: string)      // a project name over the length limit
    | NameMismatch(key: string)     // a project name that does not match the name pattern
    | InvalidTimezone(tz: string)   // pytz refuses the timezone setting
    | TimezoneUnexpected(tz: string) // any other failure while storing the timezone
    | MissingKey(key: string)       // a KeyError on a dictionary lookup
    | UnboundLocal(name: string)    // a local variable read before any assignment
}
