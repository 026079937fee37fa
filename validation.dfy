/**
 * check_config: the project-name rules, the raw-regex escape hatch, the
 * empty-configuration check and the timezone check, as functions. The class
 * method CuratorCmd.CheckConfig is proved to compute CheckConfig below.
 */
module Validation {
  import opened Wrappers
  import opened Config
  import opened PyBuiltins

  /** `projectmaxlen` */
  const ProjectMaxLen := 63

  // ---------------------------------------------------------------------
  // The project-name pattern ^[a-z0-9]([-a-z0-9]*[a-z0-9])?$
  // ---------------------------------------------------------------------

  predicate LowerAlnum(c: char) {
    ('a' <= c <= 'z') || ('0' <= c <= '9')
  }

  predicate NameChar(c: char) {
    LowerAlnum(c) || c == '-'
  }

  predicate NameChars(s: string) {
    forall k :: 0 <= k < |s| ==> NameChar(s[k])
  }

  /**
   * The pattern as a deterministic automaton. Start: nothing read yet;
   * Word: the last character read is a letter or digit (the accepting state);
   * Dash: the last character read is `-`.
   */
  datatype NameState = Start | Word | Dash

  function NameStep(st: NameState, c: char): Option<NameState> {
    if LowerAlnum(c) then Some(Word)
    else if c == '-' && st != Start then Some(Dash)
    else None
  }

  /** The state after reading all of s; None once a character has no transition. */
  function RunName(s: string): Option<NameState>
    decreases |s|
  {
    if s == [] then Some(Start)
    else match RunName(s[..|s| - 1])
      case None => None
      case Some(st) => NameStep(st, s[|s| - 1])
  }

  /**
   * `projectre.match(s)`: `^` anchors at the start, and Python's `$` matches at
   * the end of the string or just before a newline that ends it.
   */
  predicate NameMatches(s: string) {
    RunName(s) == Some(Word) || (|s| > 0 && s[|s| - 1] == '\n' && RunName(s[..|s| - 1]) == Some(Word))
  }

  /** The pattern read character by character: non-empty, only `[a-z0-9-]`, first and last not `-`. */
  predicate SimpleName(s: string) {
    |s| > 0 && NameChars(s) && s[0] != '-' && s[|s| - 1] != '-'
  }

  /** The automaton accepts exactly the simple names; it sits in Dash exactly after a simple prefix followed by dashes' last `-`. */
  lemma {:induction false} RunNameStates(s: string)
    ensures RunName(s) == Some(Start) <==> s == []
    ensures RunName(s) == Some(Word) <==> SimpleName(s)
    ensures RunName(s) == Some(Dash) <==> |s| > 0 && NameChars(s) && s[0] != '-' && s[|s| - 1] == '-'
    decreases |s|
  {
    if s != [] {
      var p, c := s[..|s| - 1], s[|s| - 1];
      RunNameStates(p);
      assert NameChars(s) <==> NameChars(p) && NameChar(c) by {
        if NameChars(p) && NameChar(c) {
          forall k | 0 <= k < |s| ensures NameChar(s[k]) {
            if k < |p| { assert s[k] == p[k]; }
          }
        }
        if NameChars(s) {
          forall k | 0 <= k < |p| ensures NameChar(p[k]) {
            assert s[k] == p[k];
          }
        }
      }
      if p != [] {
        assert s[0] == p[0];
      }
    }
  }

  /** `projectre.match` accepts a simple name, or a simple name followed by one newline, and nothing else. */
  lemma NameMatchesIff(s: string)
    ensures NameMatches(s) <==>
      SimpleName(s) || (|s| > 0 && s[|s| - 1] == '\n' && SimpleName(s[..|s| - 1]))
  {
    RunNameStates(s);
    if |s| > 0 {
      RunNameStates(s[..|s| - 1]);
    }
  }

  /** The name checks check_config applies to a key without raw_regex, in their order. */
  function CheckName(key: string): Option<Error>
  {
    if |key| > ProjectMaxLen then Some(NameTooLong(key))
    else if !NameMatches(key) then Some(NameMismatch(key))
    else None
  }

  /** A name passes exactly when it is at most 63 characters long and matches the pattern, and the error says which rule failed. */
  lemma CheckNameIff(key: string)
    ensures CheckName(key).None? <==>
      |key| <= ProjectMaxLen
      && (SimpleName(key) || (|key| > 0 && key[|key| - 1] == '\n' && SimpleName(key[..|key| - 1])))
    ensures CheckName(key) == Some(NameTooLong(key)) <==> |key| > ProjectMaxLen
  {
    NameMatchesIff(key);
  }

  /** Names that are too long, or hold an upper-case letter or `_`, or start with `-`, are refused. */
  lemma {:induction false} RejectedNames(key: string)
    requires
      || |key| > ProjectMaxLen
      || (exists k :: 0 <= k < |key| && (('A' <= key[k] <= 'Z') || key[k] == '_'))
      || (|key| > 0 && key[0] == '-')
    ensures CheckName(key).Some?
  {
    CheckNameIff(key);
    if |key| <= ProjectMaxLen {
      var n := |key|;
      if exists k :: 0 <= k < n && (('A' <= key[k] <= 'Z') || key[k] == '_') {
        var k :| 0 <= k < n && (('A' <= key[k] <= 'Z') || key[k] == '_');
        assert !NameChar(key[k]);
        assert !SimpleName(key);
        if key[n - 1] == '\n' {
          if k < n - 1 {
            assert key[..n - 1][k] == key[k];
          } else {
            assert key[k] == '\n';
          }
          assert !SimpleName(key[..n - 1]);
        }
      } else {
        assert !SimpleName(key);
        if n > 1 && key[n - 1] == '\n' {
          assert key[..n - 1][0] == key[0];
        }
        assert !SimpleName(key[..n - 1]);
      }
    }
  }

  /** The trailing newline `$` lets through: "app\n" passes the name checks. */
  lemma TrailingNewlineAccepted()
    ensures CheckName("app\n").None?
  {
    var s := "app\n";
    assert s[..3] == "app";
    assert SimpleName("app");
    CheckNameIff(s);
  }

  // ---------------------------------------------------------------------
  // The loop over top-level keys
  // ---------------------------------------------------------------------

  /** What check_config does with one top-level key; compiles says whether `re.compile` accepts a string. */
  function CheckEntry(key: string, p: Project, compiles: string -> bool): Option<Error>
  {
    if key == DefaultsKey || key == OperationsKey then None
    else match p.rawRegex
      case None => Some(MissingKey(RawRegexKey))
      case Some(raw) =>
        if raw then (if compiles(key) then None else Some(InvalidRegex(key)))
        else CheckName(key)
  }

  /** The rules a top-level key must meet, stated directly. */
  predicate EntryAccepted(key: string, p: Project, compiles: string -> bool) {
    || key == DefaultsKey
    || key == OperationsKey
    || (p.rawRegex == Some(true) && compiles(key))
    || (p.rawRegex == Some(false) && |key| <= ProjectMaxLen && NameMatches(key))
  }

  /** The first error in iteration order, or None. */
  function CheckEntries(entries: seq<(string, Project)>, compiles: string -> bool): Option<Error>
    decreases |entries|
  {
    if entries == [] then None
    else match CheckEntry(entries[0].0, entries[0].1, compiles)
      case Some(e) => Some(e)
      case None => CheckEntries(entries[1..], compiles)
  }

  lemma CheckEntryIff(key: string, p: Project, compiles: string -> bool)
    ensures CheckEntry(key, p, compiles).None? <==> EntryAccepted(key, p, compiles)
  {
  }

  /**
   * The loop accepts the keys exactly when every key meets the rules; when it
   * refuses, the error is that of the first key that does not.
   */
  lemma {:induction false} CheckEntriesIff(entries: seq<(string, Project)>, compiles: string -> bool)
    ensures CheckEntries(entries, compiles).None? <==>
      forall i :: 0 <= i < |entries| ==> EntryAccepted(entries[i].0, entries[i].1, compiles)
    ensures CheckEntries(entries, compiles).Some? ==>
      exists i :: 0 <= i < |entries|
        && CheckEntries(entries, compiles) == CheckEntry(entries[i].0, entries[i].1, compiles)
        && !EntryAccepted(entries[i].0, entries[i].1, compiles)
        && forall j :: 0 <= j < i ==> EntryAccepted(entries[j].0, entries[j].1, compiles)
    decreases |entries|
  {
    if entries != [] {
      var rest := entries[1..];
      CheckEntriesIff(rest, compiles);
      CheckEntryIff(entries[0].0, entries[0].1, compiles);
      forall i | 0 <= i < |rest| ensures rest[i] == entries[i + 1] { }
      if CheckEntry(entries[0].0, entries[0].1, compiles).None? && CheckEntries(rest, compiles).Some? {
        var i :| 0 <= i < |rest|
          && CheckEntries(rest, compiles) == CheckEntry(rest[i].0, rest[i].1, compiles)
          && !EntryAccepted(rest[i].0, rest[i].1, compiles)
          && forall j :: 0 <= j < i ==> EntryAccepted(rest[j].0, rest[j].1, compiles);
        assert forall j :: 0 <= j < i + 1 ==> EntryAccepted(entries[j].0, entries[j].1, compiles) by {
          forall j | 0 <= j < i + 1 ensures EntryAccepted(entries[j].0, entries[j].1, compiles) {
            if j > 0 { assert entries[j] == rest[j - 1]; }
          }
        }
        assert !EntryAccepted(entries[i + 1].0, entries[i + 1].1, compiles);
      }
    }
  }

  /** The reserved keys are never checked, whatever their contents. */
  lemma ReservedKeysSkipped(p: Project, compiles: string -> bool)
    ensures CheckEntry(DefaultsKey, p, compiles).None?
    ensures CheckEntry(OperationsKey, p, compiles).None?
  {
  }

  /** A raw_regex key is only compiled: length and characters do not matter. */
  lemma RawRegexSkipsNameChecks(key: string, ops: seq<(string, OpBlock)>, compiles: string -> bool)
    requires key != DefaultsKey && key != OperationsKey
    ensures CheckEntry(key, Project(Some(true), ops), compiles).None? <==> compiles(key)
    ensures !compiles(key) ==> CheckEntry(key, Project(Some(true), ops), compiles) == Some(InvalidRegex(key))
  {
  }

  // ---------------------------------------------------------------------
  // The timezone
  // ---------------------------------------------------------------------

  /** `conf.get('.defaults', {}).get('timezone', os.getenv('CURATOR_RUN_TIMEZONE', 'UTC'))` */
  function TimezoneSetting(conf: Config, env: map<string, string>): Timezone
  {
    var d := DefaultsOf(conf);
    if d.timezone.Some? then d.timezone.value
    else TzName(Getenv(env, "CURATOR_RUN_TIMEZONE", "UTC"))
  }

  /**
   * The timezone step of check_config; zones holds the strings
   * `pytz.timezone` accepts. An empty string is skipped; a setting that is
   * already a resolved zone has no string methods, so pytz fails on it; with
   * no `.defaults` block, storing the zone fails on the missing key and the
   * catch-all handler turns that into its own error.
   */
  function ResolveTimezone(conf: Config, env: map<string, string>, zones: set<string>): Result<Config, Error>
  {
    var tz := TimezoneSetting(conf, env);
    if tz == TzName("") then Ok(conf)
    else if tz.Zone? || tz.name !in zones then Err(InvalidTimezone(tz.name))
    else if conf.defaults.None? then Err(TimezoneUnexpected(tz.name))
    else Ok(conf.(defaults := Some(conf.defaults.value.(timezone := Some(Zone(tz.name))))))
  }

  /** check_config: the configuration after the check, or the error it raises. */
  function CheckConfig(conf: Config, env: map<string, string>, zones: set<string>, compiles: string -> bool): Result<Config, Error>
  {
    if IsEmpty(conf) then Err(NoConfiguration)
    else match CheckEntries(conf.entries, compiles)
      case Some(e) => Err(e)
      case None => ResolveTimezone(conf, env, zones)
  }

  /**
   * What a successful check guarantees: the configuration was not empty,
   * every key meets the rules, nothing but the timezone changed, and a
   * non-empty timezone setting is stored resolved.
   */
  lemma CheckConfigOk(conf: Config, env: map<string, string>, zones: set<string>, compiles: string -> bool)
    requires CheckConfig(conf, env, zones, compiles).Ok?
    ensures var c := CheckConfig(conf, env, zones, compiles).value;
      && !IsEmpty(conf)
      && (forall i :: 0 <= i < |conf.entries| ==> EntryAccepted(conf.entries[i].0, conf.entries[i].1, compiles))
      && c.entries == conf.entries
      && (TimezoneSetting(conf, env) == TzName("") ==> c == conf)
      && (TimezoneSetting(conf, env) != TzName("") ==>
            && conf.defaults.Some?
            && TimezoneSetting(conf, env).TzName?
            && TimezoneSetting(conf, env).name in zones
            && DefaultsOf(c) == DefaultsOf(conf).(timezone := Some(Zone(TimezoneSetting(conf, env).name))))
  {
    CheckEntriesIff(conf.entries, compiles);
  }

  /** An empty configuration is refused before anything else happens. */
  lemma EmptyConfigRefused(conf: Config, env: map<string, string>, zones: set<string>, compiles: string -> bool)
    requires IsEmpty(conf)
    ensures CheckConfig(conf, env, zones, compiles) == Err(NoConfiguration)
  {
  }

  /**
   * Without a `.defaults` block the check fails whenever the timezone taken
   * from the environment (UTC when unset) is not empty, even for a valid zone;
   * an empty configuration fails earlier.
   */
  lemma MissingDefaultsRefused(conf: Config, env: map<string, string>, zones: set<string>, compiles: string -> bool)
    requires conf.defaults.None?
    requires Getenv(env, "CURATOR_RUN_TIMEZONE", "UTC") != ""
    ensures CheckConfig(conf, env, zones, compiles).Err?
  {
  }
}
