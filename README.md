# Curator command generator, modelled in Dafny

This project models the command generator of an index-retention tool: the
class `CuratorCmd` of `app/curator_cmd.py`. The class takes a parsed retention
configuration and produces an ordered list of command lines for `curator`, the
index-maintenance tool. The configuration has a `.defaults` block, an
`.operations` block and one block per project or raw regular expression.

The generator runs in three steps:

- **Check.** `check_config` validates the configuration:
  - project names are at most 63 characters and match `^[a-z0-9]([-a-z0-9]*[a-z0-9])?$`;
  - keys flagged `raw_regex` must compile;
  - the timezone is resolved and stored.
- **Walk.** `build_cmd` walks every project's operations:
  - it resolves the project key to an index pattern;
  - it appends one `--exclude` clause to the default command;
  - it records `{unit: count, size_unit: quota}` for the pattern in `curator_settings`.
- **Emit.** It appends the default command to `commands`, then an age command
  and a disk-space command for every recorded pattern.

The model is split by module:

- `Curator.CuratorCmd` is a class. Its fields `conf`, `curatorSettings` and
  `commands` are updated by methods with loops. Each method's postcondition
  equates the new state with a function of the old state.
- `Build` holds those functions: the walk as a fold over the operations, the
  emission as a fold over the recorded patterns. It also holds reference
  functions that describe the result operation by operation, and the lemmas
  that connect the two.
- `Validation` holds the checks. The name's regular expression is a small
  automaton, and the name rules are proved equal to a direct character-level
  description.
- `Commands` holds the command strings, the pattern resolution and the
  default command.
- `ReEscape` is Python 2.7's `re.escape`. Its partner is the literal reading of
  a regular expression: the escaped text matches exactly the original string.
- `ShellQuote` is `pipes.quote`. Its partner is POSIX quote removal: the shell
  reads the quoted word back as the original string.
- `OrderedDict` holds dictionaries as insertion-ordered sequences: assignment,
  lookup, and last-write-wins over a run of assignments. Insertion order is how
  a Python 3.7+ `dict` iterates. Python 2.7, which this code targets, iterates
  a `dict` in hash order. The lookups agree under both, but the positions do
  not (see "## Left out").
- `PyBuiltins` holds `str` on integers and `os.getenv`.
- `Seqs` holds generic facts about sequences (regrouping, suffixes, positions
  in a run of two-element blocks) that the text lemmas use.

Behaviours of the code worth noting:

- The docstring of `default_index` says that the default command is always
  present, even for an empty configuration, and that without configuration the
  default indices are deleted every `$CURATOR_DEFAULT_DAYS` days
  (`app/curator_cmd.py:82-86`). The code does neither. Without a `delete`
  entry in `.defaults` the default command is the empty string
  (`Commands.DefaultIndexEmpty`). An empty configuration stops the check, so
  no command list is produced at all (`Curator.EmptyConfigNoCommands`).
- The `.operations` entry is skipped by the check but not by the walk, which
  treats it as a project named `.operations` matching `^\.operations\..*$`
  (`Build.OperationsWalked`).
- The connection flags paste the environment's values in unquoted. Only when
  no value holds a space do the flags split back into each flag and its value
  (`Commands.ConnectionInfoSplits`).

- A weeks-only policy is not emitted as days. It stops with a `KeyError` on
  `'days'` after the default command has been appended (`Build.MissingAgeUnit`).
- A key such as `.kube-system` resolves to `^\.kube\-system\..*$`, because
  Python 2.7 escapes `-` (`Commands.DotDashPattern`).
- With no default delete policy and some projects, the first command is not
  empty. It is the run of exclude clauses (`Build.BareExcludes`).
- A name with a trailing newline passes the name check, because `$` in
  `re.match` also matches before a final newline
  (`Validation.TrailingNewlineAccepted`).
- The disk-space command of every pattern uses `size`, the size unit of the
  last operation the walk recorded. Mixed size units therefore raise a
  `KeyError` (`Build.MixedSizeUnits`).
- `size` is bound only by an operation the walk records. A fresh build never
  reads it unbound: with nothing recorded the delete table is empty and no
  disk-space command is built (`Build.FreshBuildSizeBound`). If
  `curator_settings` already holds a pattern this call does not record, which
  only code outside the class can arrange, the first such pattern raises
  `UnboundLocalError` right after its age command
  (`Build.StaleSettingsUnbound`).
- A configuration without a `.defaults` block is refused whenever the
  timezone from CURATOR_RUN_TIMEZONE (UTC when unset) is non-empty: an unknown
  zone fails in `pytz`, and a known one fails when it is stored under the
  missing `.defaults` key (`Validation.MissingDefaultsRefused`). Only an empty
  CURATOR_RUN_TIMEZONE lets such a configuration through.

## Model

| member | source | states |
|---|---|---|
| PyBuiltins.NatToStringDenotes | app/curator_cmd.py:94 | `str(n)` of a natural number is a non-empty run of digits without a leading zero whose value is n |
| PyBuiltins.IntToStringDenotes | app/curator_cmd.py:150 | `str(i)` starts with `-` exactly when i is negative; the rest is a non-empty run of digits without a leading zero whose value is the magnitude of i |
| ShellQuote.QuoteRoundTrip | app/curator_cmd.py:16-19 | the shell reads every quoted string back, by quote removal, as exactly the original string, and a quoted string is never empty |
| ShellQuote.SafeWordReadsBack | app/curator_cmd.py:16-19 | a word made only of safe characters reads back as itself, unquoted |
| ShellQuote.QuoteWraps | app/curator_cmd.py:16-19 | a string that has an unsafe character and no single quote is wrapped in single quotes and nothing else |
| ShellQuote.WrappedReadsBack | app/curator_cmd.py:131 | a string with no single quote, wrapped in single quotes, reads back as itself |
| ShellQuote.QuotedPartReads | app/curator_cmd.py:16-19 | each single quote inside a quoted string, written as `'"'"'`, reads back as one single quote |
| ShellQuote.EscapeQuotesAppend | app/curator_cmd.py:16-19 | the replacement of single quotes distributes over concatenation |
| ReEscape.EscapeReadsBack | app/curator_cmd.py:96-97 | the regular expression `re.escape(s)` matches exactly the string s: the literal reading of the escaped text is s |
| ReEscape.EscapeAppend | app/curator_cmd.py:123 | escaping distributes over concatenation |
| ReEscape.EscapeCharShape | app/curator_cmd.py:123 | a letter, digit or `_` is kept, and any other character gets a backslash in front |
| Validation.RunNameStates | app/curator_cmd.py:34 | the name automaton ends in its word state exactly on non-empty strings of `[a-z0-9-]` that neither start nor end with `-` |
| Validation.NameMatchesIff | app/curator_cmd.py:61 | `projectre.match(s)` succeeds exactly on such a string, or on such a string followed by one newline |
| Validation.CheckNameIff | app/curator_cmd.py:58-63 | a name passes exactly when it is at most 63 characters and matches the pattern; the length error is raised exactly for names over 63 |
| Validation.RejectedNames | app/curator_cmd.py:58-63 | names over 63 characters, names with an upper-case letter or `_`, and names starting with `-` are refused |
| Validation.TrailingNewlineAccepted | app/curator_cmd.py:61 | `"app\n"` passes the name check |
| Validation.CheckEntryIff | app/curator_cmd.py:48-63 | a key is accepted exactly when it is reserved, or is a raw regex that compiles, or is a name that passes the name checks |
| Validation.CheckEntriesIff | app/curator_cmd.py:47-64 | the loop accepts every key exactly when each key is accepted; when it fails, its error is that of the first refused key, and every earlier key is accepted |
| Validation.ReservedKeysSkipped | app/curator_cmd.py:48-49 | `.defaults` and `.operations` are never checked, whatever they hold |
| Validation.RawRegexSkipsNameChecks | app/curator_cmd.py:50-55 | a raw_regex key is accepted exactly when it compiles, whatever its length or characters; otherwise the error is InvalidRegex |
| Validation.CheckConfigOk | app/curator_cmd.py:43-79 | a successful check implies a non-empty configuration in which every key is accepted; only the timezone changes, and a non-empty timezone setting is a known zone stored resolved in `.defaults` |
| Validation.EmptyConfigRefused | app/curator_cmd.py:44-46 | an empty configuration is refused with NoConfiguration |
| Validation.MissingDefaultsRefused | app/curator_cmd.py:66-76 | without a `.defaults` block and with a non-empty timezone from the environment, the check fails, whatever the entries |
| OrderedDict.GetNone | app/curator_cmd.py:133 | a lookup raises KeyError exactly for a missing key |
| OrderedDict.PutGet | app/curator_cmd.py:133-135 | after `d[k] = v`, k holds v and every other key holds what it held |
| OrderedDict.PutPut | app/curator_cmd.py:133-135 | a second assignment to a key overrides the first |
| OrderedDict.PutKeys | app/curator_cmd.py:133 | assignment keeps the key order and appends a new key at the end |
| OrderedDict.PutAllGet | app/curator_cmd.py:133-135 | after a run of assignments each key holds its last assigned value, and a key never assigned keeps its old value |
| OrderedDict.PutAllKeys | app/curator_cmd.py:133 | after a run of assignments the key order is first-assignment order, and the keys stay distinct |
| OrderedDict.PutAllTwice | app/curator_cmd.py:133-135 | repeating a run of assignments changes nothing |
| OrderedDict.Extensionality | app/curator_cmd.py:142-143 | two dictionaries with the same key order and the same lookups are equal |
| Commands.ConnectionInfoFallbacks | app/curator_cmd.py:100-105 | with no environment set, the connection flags use localhost, 9200, /etc/ca, /etc/cert, /etc/key and a 30 second timeout |
| Commands.ConnectionInfoHost | app/curator_cmd.py:101 | with ES_HOST set, the connection flags start with `--host` and its value |
| Commands.ConnectionInfoWords | app/curator_cmd.py:100-105 | for every environment, the connection flags are the words `--host`, host, `--port`, port, `--use_ssl`, `--certificate`, CA, `--client-cert`, cert, `--client-key`, key, `--timeout`, timeout joined by single spaces, each value the variable's or its fallback |
| Commands.ConnectionInfoSplits | app/curator_cmd.py:100-105 | when no variable's value holds a space, splitting the connection flags at spaces gives back exactly those thirteen words |
| Commands.IndexPatternMeaning | app/curator_cmd.py:124-128 | an index pattern is `^`, a literal matching exactly the prefix, then `.*$`; its quoted form reads back as the pattern |
| Commands.PatternMeaning | app/curator_cmd.py:120-128 | a non-raw key resolves to a pattern matching the names that start with the key plus `.` or `project.` plus the key plus `.`; the prefix always starts with `.` or `project.` and ends with `.` |
| Commands.RawPatternVerbatim | app/curator_cmd.py:129-131 | a raw key is its own pattern, and its exclude clause reads back as the key when the key has no single quote |
| Commands.RawExcludeWithQuote | app/curator_cmd.py:131 | a raw key holding a single quote makes an exclude clause the shell cannot read |
| Commands.OpenQuoteRefused | app/curator_cmd.py:131 | an unterminated single quote is a shell syntax error |
| Commands.AliasedKeys | app/curator_cmd.py:121-128 | `app` and `project.app` resolve to the same pattern |
| Commands.CheckedNameIsPrefixed | app/curator_cmd.py:121-128 | a name that passes the name check is always qualified with `project.` |
| Commands.WordKeyPattern | app/curator_cmd.py:127-128 | a key of letters, digits and `_` resolves to `^project\.` + key + `\..*$` |
| Commands.WordKeyExclude | app/curator_cmd.py:125-127 | the exclude clause of a key of letters, digits and `_` is `--exclude` followed by its pattern in single quotes |
| Commands.AppPattern | app/curator_cmd.py:127-128 | the key `app` resolves to `^project\.app\..*$` |
| Commands.DotDashPattern | app/curator_cmd.py:122-124 | a key `.a-b` resolves to `^\.a\-b\..*$`, with the dash escaped |
| Commands.FixedExcludes | app/curator_cmd.py:96-97 | the two fixed exclusions match exactly the names starting with `.searchguard.` and `.kibana.` |
| Commands.DottedWordPattern | app/curator_cmd.py:96-97 | a prefix `.w.` for a word w gives the pattern `^\.w\..*$`, which quoting only wraps in single quotes |
| Commands.DottedKeyPattern | app/curator_cmd.py:121-124 | a key `.w` for a word w resolves to `^\.w\..*$`, and its exclude clause is that pattern in single quotes |
| Commands.FixedPattern | app/curator_cmd.py:96-97 | the fixed patterns are `^\.searchguard\..*$` and `^\.kibana\..*$`, quoted by plain wrapping |
| Commands.DefaultIndexEmpty | app/curator_cmd.py:81-98 | the default command is empty exactly when `.defaults` has no delete entry |
| Commands.DefaultIndexCases | app/curator_cmd.py:87-98 | with a delete entry, a missing unit or count raises KeyError; otherwise the default command is the delete invocation with `--older-than` the count and `--time-unit` the unit, then `--exclude '^\.searchguard\..*$'` and `--exclude '^\.kibana\..*$'` |
| Commands.CommandsEndWithRegex | app/curator_cmd.py:148-156 | both per-pattern commands end with `--regex` and the quoted pattern, which reads back as the pattern |
| Build.FirstMissing | app/curator_cmd.py:115-119 | the first allowed operation with a missing field, with every allowed operation before it complete |
| Build.ExcludesAppend | app/curator_cmd.py:110-139 | the exclude clauses and the assignments of a concatenated walk are those of its parts, concatenated |
| Build.FoldSucceeds | app/curator_cmd.py:110-139 | a walk whose allowed operations are complete has these results: no error; the default command extended by every accepted operation's exclude clause in order; the table with every assignment applied; and the last accepted size unit |
| Build.FoldFails | app/curator_cmd.py:113-119 | a walk meeting an incomplete operation raises the KeyError of its first missing field, after the assignments of the operations before it |
| Build.FoldAppend | app/curator_cmd.py:110-139 | walking a concatenation is walking the parts one after the other |
| Build.RecordOne | app/curator_cmd.py:133-135 | an accepted operation replaces its pattern's thresholds by a fresh map holding exactly its unit and size unit, leaving every other pattern unchanged |
| Build.OperationsWalked | app/curator_cmd.py:110-128 | the `.operations` entry is not skipped by the walk: its operations become items, and it resolves to `^\.operations\..*$` with a single-quoted exclude clause |
| Build.SkippedOperations | app/curator_cmd.py:137-139 | keys that are not allowed operations, such as raw_regex or unknown names, are skipped without raising |
| Build.TableTargetsAt | app/curator_cmd.py:142-143 | the emission visits the patterns of a table in table order |
| Build.PairsAt | app/curator_cmd.py:142-157 | the emitted pairs hold, at positions 2i and 2i+1, the age and the disk-space command of the i-th pattern |
| Build.EmitSucceeds | app/curator_cmd.py:142-157 | an emission in which every pattern is emittable appends its pairs in order, and raises nothing |
| Build.EmitFails | app/curator_cmd.py:144-156 | an emission meeting a pattern it cannot emit raises that pattern's error; the pairs before it stay appended, and so does its age command when only the disk lookup fails |
| Build.EmitAppend | app/curator_cmd.py:142-157 | emitting a concatenation is emitting the parts one after the other |
| Build.RecordedTable | app/curator_cmd.py:133-135 | the recorded table holds each pattern once, in first-assignment order, with the thresholds of its last assignment |
| Build.FreshWalk | app/curator_cmd.py:107-139 | a fresh walk over complete operations leaves the default command with all clauses, the recorded table, and the last size unit |
| Build.FreshBuildSucceeds | app/curator_cmd.py:107-157 | a fresh successful build leaves the settings holding the recorded table; its commands are the extended default command followed by every pattern's pair |
| Build.FreshBuildShape | app/curator_cmd.py:141-157 | a fresh successful build has 1 + 2n commands: the default command, then the age and disk-space command of the i-th recorded pattern at positions 2i+1 and 2i+2 |
| Build.FreshBuildWalkFails | app/curator_cmd.py:115-119 | a fresh build whose walk fails raises the first missing field and leaves no command |
| Build.FreshBuildEmitFails | app/curator_cmd.py:141-157 | a fresh build whose emission fails raises the first blocked pattern's error, after the default command and every command before it |
| Build.FreshBuildOk | app/curator_cmd.py:107-157 | a fresh build that raises nothing had a default command, complete operations and emittable patterns |
| Build.UniformEmittable | app/curator_cmd.py:144-156 | if every operation counts in days or months and all share one size unit, every recorded pattern can be emitted |
| Build.MissingAgeUnit | app/curator_cmd.py:144-150 | a single weeks-only operation raises KeyError `'days'` after the default command has been appended |
| Build.MixedSizeUnits | app/curator_cmd.py:117-156 | two patterns with different size units raise KeyError on the second unit, after the first pattern's age command |
| Build.NoProjects | app/curator_cmd.py:141 | with no project, the command list is the default command alone |
| Build.BareExcludes | app/curator_cmd.py:122-141 | without a default delete policy, the first command is the bare run of exclude clauses |
| Build.SecondBuild | app/curator_cmd.py:133-157 | a second build on the same object leaves the settings unchanged and appends the same commands again |
| Build.FreshBuildSizeBound | app/curator_cmd.py:117-156 | a build on a fresh object never raises UnboundLocalError on `size`, for any configuration |
| Build.StaleSettingsUnbound | app/curator_cmd.py:142-156 | with a pattern already in the settings and no project recorded, the build raises UnboundLocalError after the default command and that pattern's age command |
| Curator.CuratorCmd.constructor | app/curator_cmd.py:30-41 | the settings table holds an empty delete table, there are no commands, and the log level comes from CURATOR_LOG_LEVEL with INFO as fallback |
| Curator.CuratorCmd.CheckConfig | app/curator_cmd.py:43-79 | the error is the one the check raises; on success the configuration afterwards is the checked one; on error it is unchanged; settings and commands are untouched |
| Curator.CuratorCmd.BuildCmd | app/curator_cmd.py:107-157 | the settings, the commands and the error afterwards are those of the fold-and-emit function on the state before |
| Curator.CuratorCmd.AddProject | app/curator_cmd.py:113-139 | the walk over one project's keys updates the settings, the command and `size` as the fold over its operations does |
| Curator.CuratorCmd.EmitAll | app/curator_cmd.py:142-157 | the commands appended and the error raised are those of the emission over every table |
| Curator.CuratorCmd.EmitOperation | app/curator_cmd.py:143-157 | the commands appended and the error raised are those of the emission over one table |
| Curator.CuratorCmd.BuildCmdList | app/curator_cmd.py:159-162 | check, then build: a check error is returned with nothing changed; otherwise the state is that of the build on the checked configuration, and the result is its commands or its error; after a returned command list, `get_defaults()` holds the resolved defaults of `Curator.DefaultsAfterCheck` |
| Curator.DefaultsAfterCheck | app/curator_cmd.py:66-77 | after a successful check, `get_defaults()` keeps the delete policy and run time of the parsed `.defaults`; its timezone is the resolved known zone when the setting (from `.defaults` or CURATOR_RUN_TIMEZONE, UTC by default) is non-empty, and otherwise what `.defaults` held: absent or empty |
| Curator.CheckKeepsCommands | app/curator_cmd.py:70-88 | storing the resolved timezone does not change what the build produces |
| Curator.EmptyConfigNoCommands | app/curator_cmd.py:159-161 | an empty configuration yields no command list |
| Curator.CommandListOk | app/curator_cmd.py:159-162 | a returned command list means every key was accepted; it has 1 + 2n commands: the default command with one clause per accepted operation, then each recorded pattern's pair |

## Left out

- Reading the configuration file is outside the model: the `Parser` class and YAML loading are not part of it. The parsed configuration is the constructor's parameter, typed as records. YAML values of an unexpected type, such as a non-integer count, are not modelled.
- The environment is a map given to the constructor and to the functions that read it.
- `pytz.timezone` is modelled as the set `zones` of the names it accepts. The resolved zone is recorded by its name.
- `re.compile` of a raw_regex key is modelled as the predicate `compiles`. Python's regular-expression syntax is not modelled.
- Logging, `sys.exit` and the exception messages are left out. An exit and each exception become an `Error` value naming its cause.
- `app/util.py` (logger setup) and `ttt.py` (cron scheduling) are not part of this model.
- The `allowed_units` table is declared in the source but never consulted, so it appears only as a constant.
- Curator.CuratorCmd.BuildCmd: the method is split into the helper methods `AddProject`, `EmitAll` and `EmitOperation`, one per nested loop of the source. The helpers update the same fields in the same order.
- Commands.ConnectionInfoFallbacks: only the fallback case is spelled out as text. With variables set, the flags hold their values unquoted, as `Commands.ConnectionInfo` defines.
- Validation.MissingDefaultsRefused: it states only that the check fails. Which of the two timezone errors is raised depends on whether the zone is known, and `Validation.ResolveTimezone` spells that out.
- Curator.CuratorCmd.GetDefaults: only the block is returned as stored; what the block holds after a check is stated by `Curator.DefaultsAfterCheck` and the postcondition of `Curator.CuratorCmd.BuildCmdList`.
- Every iteration order (the configuration's keys, a project's keys, `curator_settings` and its tables) is the order of the given sequence or of first assignment, which is how a Python 3.7+ `dict` iterates. Python 2.7 iterates a `dict` in hash order, which depends on the keys' hashes and is not modelled. The members below state positions and therefore hold only under that ordering assumption:
- Build.RecordedTable: the pattern order is first-assignment order, not Python 2.7's hash order of `curator_settings['delete']`.
- Build.FreshBuildSucceeds: the commands after the default command are the pairs in first-assignment order; under Python 2.7 the same pairs appear in hash order.
- Build.FreshBuildEmitFails: which pattern is blocked first, and so which commands precede the error, follows first-assignment order; under Python 2.7 it follows hash order.
- Build.FreshBuildShape: pattern i's commands sit at positions 2i+1 and 2i+2 in first-assignment order; under Python 2.7 the same pairs appear in hash order.
- Build.MixedSizeUnits: which pattern is emitted first, and so which unit raises, follows first-assignment order; under Python 2.7 it follows hash order.
- Build.TableTargetsAt: the emission visits the patterns in first-assignment order, not hash order.
- Build.PairsAt: the positions of the pairs follow first-assignment order, not hash order.
- Build.FoldSucceeds: the exclude clauses follow the given order of projects and keys, not hash order.
- Curator.CommandListOk: the position of each pattern's pair follows first-assignment order, not hash order.
- OrderedDict.PutKeys: a new key is appended at the end, as in a Python 3.7+ `dict`; Python 2.7 places it by hash.
- OrderedDict.PutAllKeys: the key order is first-assignment order, as in a Python 3.7+ `dict`; Python 2.7 orders the keys by hash.
