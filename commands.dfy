/**
 * The pieces of text the generator assembles: the connection flags, the
 * default command, the pattern a configuration key resolves to, its exclude
 * clause, and the per-pattern age and disk-space commands.
 */
module Commands {
  import opened Wrappers
  import opened Config
  import opened PyBuiltins
  import opened ShellQuote
  import opened ReEscape
  import opened Seqs
  import Validation

  const Curator := "/usr/bin/curator"
  const Timestring := "%Y.%m.%d"

  /** `os.getenv('CURATOR_LOG_LEVEL', 'INFO')`, read once when the object is made. */
  function LogLevel(env: map<string, string>): string {
    Getenv(env, "CURATOR_LOG_LEVEL", "INFO")
  }

  /** `connection_info()`: the environment values are pasted in as they are, without quoting. */
  function ConnectionInfo(env: map<string, string>): string {
    "--host " + Getenv(env, "ES_HOST", "localhost")
    + " --port " + Getenv(env, "ES_PORT", "9200")
    + " --use_ssl --certificate " + Getenv(env, "ES_CA", "/etc/ca")
    + " --client-cert " + Getenv(env, "ES_CLIENT_CERT", "/etc/cert")
    + " --client-key " + Getenv(env, "ES_CLIENT_KEY", "/etc/key")
    + " --timeout " + Getenv(env, "CURATOR_TIMEOUT", "30")
  }

  /** With no variable set, every flag carries its fallback value. */
  lemma ConnectionInfoFallbacks()
    ensures ConnectionInfo(map[]) ==
      "--host " + "localhost" + " --port " + "9200" + " --use_ssl --certificate " + "/etc/ca"
      + " --client-cert " + "/etc/cert" + " --client-key " + "/etc/key" + " --timeout " + "30"
  {
    var e: map<string, string> := map[];
    assert "ES_HOST" !in e && "ES_PORT" !in e && "ES_CA" !in e;
    assert "ES_CLIENT_CERT" !in e && "ES_CLIENT_KEY" !in e && "CURATOR_TIMEOUT" !in e;
  }

  /** A variable that is set replaces its fallback: the host flag comes first and carries `ES_HOST`. */
  lemma ConnectionInfoHost(env: map<string, string>)
    requires "ES_HOST" in env
    ensures ConnectionInfo(env)[..7 + |env["ES_HOST"]|] == "--host " + env["ES_HOST"]
  {
    var x := "--host " + env["ES_HOST"];
    var n := |x|;
    assert Getenv(env, "ES_HOST", "localhost") == env["ES_HOST"];
    var s := x;
    PrefixGrow(s, " --port ", n);
    s := s + " --port ";
    PrefixGrow(s, Getenv(env, "ES_PORT", "9200"), n);
    s := s + Getenv(env, "ES_PORT", "9200");
    PrefixGrow(s, " --use_ssl --certificate ", n);
    s := s + " --use_ssl --certificate ";
    PrefixGrow(s, Getenv(env, "ES_CA", "/etc/ca"), n);
    s := s + Getenv(env, "ES_CA", "/etc/ca");
    PrefixGrow(s, " --client-cert ", n);
    s := s + " --client-cert ";
    PrefixGrow(s, Getenv(env, "ES_CLIENT_CERT", "/etc/cert"), n);
    s := s + Getenv(env, "ES_CLIENT_CERT", "/etc/cert");
    PrefixGrow(s, " --client-key ", n);
    s := s + " --client-key ";
    PrefixGrow(s, Getenv(env, "ES_CLIENT_KEY", "/etc/key"), n);
    s := s + Getenv(env, "ES_CLIENT_KEY", "/etc/key");
    PrefixGrow(s, " --timeout ", n);
    s := s + " --timeout ";
    PrefixGrow(s, Getenv(env, "CURATOR_TIMEOUT", "30"), n);
    s := s + Getenv(env, "CURATOR_TIMEOUT", "30");
    assert s == ConnectionInfo(env);
  }

  /** The words of the connection flags: each flag, then its variable's value or fallback. */
  function ConnectionWords(env: map<string, string>): seq<string> {
    ["--host", Getenv(env, "ES_HOST", "localhost"),
     "--port", Getenv(env, "ES_PORT", "9200"),
     "--use_ssl", "--certificate", Getenv(env, "ES_CA", "/etc/ca"),
     "--client-cert", Getenv(env, "ES_CLIENT_CERT", "/etc/cert"),
     "--client-key", Getenv(env, "ES_CLIENT_KEY", "/etc/key"),
     "--timeout", Getenv(env, "CURATOR_TIMEOUT", "30")]
  }

  /**
   * For every environment, the connection flags are their words joined by
   * single spaces; the values are pasted in unquoted.
   */
  lemma ConnectionInfoWords(env: map<string, string>)
    ensures ConnectionInfo(env) == Join(ConnectionWords(env), ' ')
  {
    var h, p, ca := Getenv(env, "ES_HOST", "localhost"), Getenv(env, "ES_PORT", "9200"), Getenv(env, "ES_CA", "/etc/ca");
    var cc, ck := Getenv(env, "ES_CLIENT_CERT", "/etc/cert"), Getenv(env, "ES_CLIENT_KEY", "/etc/key");
    var t := Getenv(env, "CURATOR_TIMEOUT", "30");
    FlagsJoin(h, p, ca, cc, ck, t);
  }

  /** The literal separators of the connection flags, as flag words between spaces. */
  lemma FlagLiterals()
    ensures " --port " == [' '] + "--port" + [' ']
    ensures " --use_ssl --certificate " == [' '] + "--use_ssl" + [' '] + "--certificate" + [' ']
  {
  }

  /** The remaining literal separators of the connection flags. */
  lemma FlagLiteralsRest()
    ensures " --client-cert " == [' '] + "--client-cert" + [' ']
    ensures " --client-key " == [' '] + "--client-key" + [' ']
    ensures " --timeout " == [' '] + "--timeout" + [' ']
  {
  }

  /** The joining step of `ConnectionInfoWords`, for any six values. */
  lemma FlagsJoin(h: string, p: string, ca: string, cc: string, ck: string, t: string)
    ensures "--host " + h + " --port " + p + " --use_ssl --certificate " + ca + " --client-cert " + cc
            + " --client-key " + ck + " --timeout " + t
         == Join(["--host", h, "--port", p, "--use_ssl", "--certificate", ca, "--client-cert", cc,
                  "--client-key", ck, "--timeout", t], ' ')
  {
    FlagLiterals();
    FlagLiteralsRest();
    var ws: seq<string> := ["--host"];
    assert Join(ws, ' ') == "--host";
    JoinSnoc(ws, h, ' ');
    var s := "--host" + [' '] + h;
    assert s == "--host " + h;
    ws := ws + [h];
    JoinFlag(ws, s, " --port ", ' ', "--port", p);
    ws, s := ws + ["--port"] + [p], s + " --port " + p;
    JoinFlags(ws, s, " --use_ssl --certificate ", ' ', "--use_ssl", "--certificate", ca);
    ws, s := ws + ["--use_ssl"] + ["--certificate"] + [ca], s + " --use_ssl --certificate " + ca;
    JoinFlag(ws, s, " --client-cert ", ' ', "--client-cert", cc);
    ws, s := ws + ["--client-cert"] + [cc], s + " --client-cert " + cc;
    JoinFlag(ws, s, " --client-key ", ' ', "--client-key", ck);
    ws, s := ws + ["--client-key"] + [ck], s + " --client-key " + ck;
    JoinFlag(ws, s, " --timeout ", ' ', "--timeout", t);
    ws, s := ws + ["--timeout"] + [t], s + " --timeout " + t;
    assert ws == ["--host", h, "--port", p, "--use_ssl", "--certificate", ca, "--client-cert", cc,
                  "--client-key", ck, "--timeout", t];
  }

  /** No variable's value holds a space. */
  predicate SpaceFree(env: map<string, string>) {
    forall name :: name in env ==> ' ' !in env[name]
  }

  /**
   * When no value holds a space, splitting the connection flags at spaces
   * gives back each flag followed by its value: the six flags carry the six
   * variables, each set variable replacing its fallback.
   */
  lemma ConnectionInfoSplits(env: map<string, string>)
    requires SpaceFree(env)
    ensures Split(ConnectionInfo(env), ' ') == ConnectionWords(env)
  {
    ConnectionInfoWords(env);
    var h, p, ca := Getenv(env, "ES_HOST", "localhost"), Getenv(env, "ES_PORT", "9200"), Getenv(env, "ES_CA", "/etc/ca");
    var cc, ck := Getenv(env, "ES_CLIENT_CERT", "/etc/cert"), Getenv(env, "ES_CLIENT_KEY", "/etc/key");
    var t := Getenv(env, "CURATOR_TIMEOUT", "30");
    FallbacksSpaceFree();
    GetenvSpaceFree(env, "ES_HOST", "localhost");
    GetenvSpaceFree(env, "ES_PORT", "9200");
    GetenvSpaceFree(env, "ES_CA", "/etc/ca");
    GetenvSpaceFree(env, "ES_CLIENT_CERT", "/etc/cert");
    GetenvSpaceFree(env, "ES_CLIENT_KEY", "/etc/key");
    GetenvSpaceFree(env, "CURATOR_TIMEOUT", "30");
    FlagWordsSplit(h, p, ca, cc, ck, t);
  }

  /** A variable's value, or its fallback, holds no space when neither does. */
  lemma GetenvSpaceFree(env: map<string, string>, name: string, fallback: string)
    requires SpaceFree(env) && ' ' !in fallback
    ensures ' ' !in Getenv(env, name, fallback)
  {
  }

  /** None of the fallback values holds a space. */
  lemma FallbacksSpaceFree()
    ensures ' ' !in "localhost" && ' ' !in "9200" && ' ' !in "/etc/ca"
    ensures ' ' !in "/etc/cert" && ' ' !in "/etc/key" && ' ' !in "30"
  {
  }

  /** The splitting step of `ConnectionInfoSplits`, for any six values without spaces. */
  lemma FlagWordsSplit(h: string, p: string, ca: string, cc: string, ck: string, t: string)
    requires ' ' !in h && ' ' !in p && ' ' !in ca && ' ' !in cc && ' ' !in ck && ' ' !in t
    ensures var ws := ["--host", h, "--port", p, "--use_ssl", "--certificate", ca, "--client-cert", cc,
                       "--client-key", ck, "--timeout", t];
            Split(Join(ws, ' '), ' ') == ws
  {
    var ws := ["--host", h, "--port", p, "--use_ssl", "--certificate", ca, "--client-cert", cc,
               "--client-key", ck, "--timeout", t];
    FlagNamesSpaceFree();
    forall i | 0 <= i < |ws|
      ensures ' ' !in ws[i]
    {
    }
    SplitJoin(ws, ' ');
  }

  /** None of the flag words holds a space. */
  lemma FlagNamesSpaceFree()
    ensures ' ' !in "--host" && ' ' !in "--port" && ' ' !in "--use_ssl" && ' ' !in "--certificate"
    ensures ' ' !in "--client-cert" && ' ' !in "--client-key" && ' ' !in "--timeout"
  {
  }

  /** The start every command shares: the program, its log level, the connection flags and the operation. */
  function Invocation(level: string, conInfo: string, op: string): string {
    Curator + " --loglevel " + level + " " + conInfo + " " + op
  }

  // ---------------------------------------------------------------------
  // Patterns and exclude clauses
  // ---------------------------------------------------------------------

  /** The index-name prefix a key stands for: keys starting with `.` or `project.` are taken as they are, others get `project.` in front. */
  function Qualified(key: string): string {
    if "." <= key || ProjectPrefix <= key then key + "." else ProjectPrefix + key + "."
  }

  /** The pattern matching every index whose name starts with the given prefix. */
  function IndexPattern(prefix: string): string {
    "^" + Escape(prefix) + ".*$"
  }

  /** The match pattern a key resolves to (`this_project`): a raw_regex key is its own pattern. */
  function Pattern(key: string, raw: bool): string {
    if raw then key else IndexPattern(Qualified(key))
  }

  /** The clause appended to the default command: shell-quoted for a name, wrapped in single quotes as it is for a raw_regex key. */
  function ExcludeClause(key: string, raw: bool): string {
    " --exclude " + (if raw then "'" + key + "'" else Quote(Pattern(key, false)))
  }

  /**
   * An index pattern is `^`, then a literal matching exactly the prefix, then
   * `.*$`; the shell hands its quoted form to curator unchanged.
   */
  lemma IndexPatternMeaning(prefix: string)
    ensures var p := IndexPattern(prefix);
      && |p| >= 3 && p[0] == '^' && p[|p| - 3..] == ".*$"
      && LiteralOf(p[1..|p| - 3]) == Some(prefix)
      && ShellWord(Quote(p)) == Some(p)
  {
    var p := IndexPattern(prefix);
    assert p[1..|p| - 3] == Escape(prefix);
    EscapeReadsBack(prefix);
    QuoteRoundTrip(p);
  }

  /**
   * A name's pattern matches the names starting with its qualified prefix,
   * which is the key itself or the key after `project.`, starts with `.` or
   * `project.` and ends with `.`.
   */
  lemma PatternMeaning(key: string)
    ensures var p := Pattern(key, false);
      && p[0] == '^' && p[|p| - 3..] == ".*$"
      && LiteralOf(p[1..|p| - 3]) == Some(Qualified(key))
      && ShellWord(Quote(p)) == Some(p)
    ensures var q := Qualified(key);
      && ("." <= q || ProjectPrefix <= q) && q[|q| - 1] == '.'
      && (q == key + "." || q == ProjectPrefix + key + ".")
  {
    IndexPatternMeaning(Qualified(key));
  }

  /** A raw_regex key is used verbatim as its pattern, and its exclude clause reads back as the key when the key holds no single quote. */
  lemma RawPatternVerbatim(key: string)
    ensures Pattern(key, true) == key
    ensures '\'' !in key ==> ShellWord(ExcludeClause(key, true)[11..]) == Some(key)
  {
    if '\'' !in key {
      assert ExcludeClause(key, true)[11..] == "'" + key + "'";
      WrappedReadsBack(key);
    }
  }

  /** A safe word followed by a lone single quote leaves the quote open, which the shell refuses. */
  lemma {:induction false} OpenQuoteRefused(b: string)
    requires AllSafe(b)
    ensures ShellWord(b + "'") == None
    decreases |b|
  {
    var w := b + "'";
    if b == [] {
      assert w[1..] == [];
    } else {
      SafeIsNotSpecial(b[0]);
      assert w[0] == b[0] && w[1..] == b[1..] + "'";
      OpenQuoteRefused(b[1..]);
    }
  }

  /**
   * A raw_regex key is wrapped in single quotes without escaping, so a key
   * `a'b` whose part after the quote is plain leaves the shell an unterminated
   * quote.
   */
  lemma RawExcludeWithQuote(a: string, b: string)
    requires NoSingleQuote(a) && AllSafe(b)
    ensures ShellWord(ExcludeClause(a + "'" + b, true)[11..]) == None
  {
    var w := ExcludeClause(a + "'" + b, true)[11..];
    assert w == "'" + a + "'" + (b + "'");
    SingleQuotedPart(a, b + "'");
    OpenQuoteRefused(b);
  }

  /** A key qualified with `project.` and the same key without it resolve to the same pattern. */
  lemma AliasedKeys(key: string)
    requires !("." <= key) && !(ProjectPrefix <= key)
    ensures Pattern(ProjectPrefix + key, false) == Pattern(key, false)
  {
    assert ProjectPrefix <= ProjectPrefix + key;
    assert ProjectPrefix + key + "." == ProjectPrefix + (key + ".");
  }

  /** A string whose i-th character differs from p's (or is missing) does not start with p. */
  lemma NotPrefix(p: string, s: string, i: nat)
    requires i < |p| && (i < |s| ==> s[i] != p[i])
    ensures !(p <= s)
  {
  }

  lemma NameHasNoDot(s: string)
    requires Validation.NameChars(s)
    ensures forall k :: 0 <= k < |s| ==> s[k] != '.'
  {
  }

  /** A name that passed the name checks never starts with `.` or `project.`, so it always gets the `project.` prefix. */
  lemma CheckedNameIsPrefixed(key: string)
    requires Validation.CheckName(key).None?
    ensures Qualified(key) == ProjectPrefix + key + "."
  {
    Validation.CheckNameIff(key);
    var n := |key|;
    var core := if Validation.SimpleName(key) then key else key[..n - 1];
    assert Validation.SimpleName(core);
    NameHasNoDot(core);
    assert forall k :: 0 <= k < |core| ==> key[k] == core[k];
    assert core == key || key[n - 1] == '\n';
    NotPrefix(".", key, 0);
    NotPrefix(ProjectPrefix, key, 7);
  }

  predicate Word(s: string) {
    forall k :: 0 <= k < |s| ==> WordChar(s[k])
  }

  /** Letters, digits and `_` are left as they are by `re.escape`. */
  lemma {:induction false} EscapeWord(s: string)
    requires Word(s)
    ensures Escape(s) == s
    decreases |s|
  {
    if s != [] {
      EscapeWord(s[1..]);
    }
  }

  /** `re.escape` of `w.` and of `.w.` for a word w. */
  lemma EscapeDotted(w: string)
    requires Word(w)
    ensures Escape(w + ".") == w + "\\."
    ensures Escape("." + w + ".") == "\\." + w + "\\."
  {
    EscapeWord(w);
    EscapeAppend(w, ".");
    EscapeAppend("." + w, ".");
    EscapeAppend(".", w);
  }

  lemma EscapeProjectPrefix()
    ensures Escape(ProjectPrefix) == "project\\."
  {
    EscapeWordDot(ProjectPrefix, "project");
  }

  lemma EscapeWordDot(p: string, w: string)
    requires Word(w) && p == w + "."
    ensures Escape(p) == w + "\\."
  {
    EscapeDotted(w);
  }

  lemma WordKeyQualified(key: string)
    requires Word(key) && key != []
    ensures Escape(Qualified(key)) == "project\\." + (key + "\\.")
  {
    NotPrefix(".", key, 0);
    NotPrefix(ProjectPrefix, key, 7);
    assert Qualified(key) == ProjectPrefix + (key + ".");
    EscapeAppend(ProjectPrefix, key + ".");
    EscapeProjectPrefix();
    EscapeDotted(key);
  }

  /** A key made only of letters, digits and `_` resolves to `^project\.<key>\..*$`. */
  lemma WordKeyPattern(key: string)
    requires Word(key) && key != []
    ensures Pattern(key, false) == "^project\\." + key + "\\..*$"
  {
    WordKeyQualified(key);
    AppendAssoc("project\\.", key, "\\.");
    assert "^" + "project\\." == "^project\\." && "\\." + ".*$" == "\\..*$";
    FrameRegroupShort("^", "project\\.", key, "\\.", ".*$", "^project\\.", "\\..*$");
  }

  /** A key of letters, digits and `_` has an exclude clause that is its pattern wrapped in single quotes. */
  lemma WordKeyExclude(key: string)
    requires Word(key) && key != []
    ensures ExcludeClause(key, false) == " --exclude '" + Pattern(key, false) + "'"
  {
    WordKeyPattern(key);
    var p := Pattern(key, false);
    assert !SafeChar(p[0]);
    assert '\'' !in key;
    assert '\'' !in "^project\\." && '\'' !in "\\..*$";
    assert '\'' !in p;
    QuoteWraps(p);
    assert " --exclude " + "'" == " --exclude '";
    Regroup4(" --exclude ", "'", p, "'");
  }

  /** The pattern of project `app`. */
  lemma AppPattern(key: string)
    requires key == "app"
    ensures Pattern(key, false) == "^project\\.app\\..*$"
  {
    WordKeyPattern(key);
  }

  /** A key `.a-b` starting with `.` is not given the `project.` prefix, and `re.escape` escapes its `-` too. */
  lemma DotDashPattern(key: string, a: string, b: string)
    requires Word(a) && Word(b) && key == "." + a + "-" + b
    ensures Pattern(key, false) == "^\\." + a + "\\-" + b + "\\..*$"
  {
    assert key[0] == '.';
    assert Qualified(key) == ("." + a) + "-" + (b + ".");
    EscapeWord(a);
    EscapeAppend(".", a);
    EscapeDotted(b);
    EscapeAppend("." + a, "-");
    EscapeAppend("." + a + "-", b + ".");
    assert Escape(".") == "\\." && Escape("-") == "\\-";
    assert "^" + "\\." == "^\\." && "\\." + ".*$" == "\\..*$";
    FrameRegroup("^", "\\.", a, "\\-", b, "\\.", ".*$", "^\\.", "\\..*$");
  }


  // ---------------------------------------------------------------------
  // The default command
  // ---------------------------------------------------------------------

  const SearchguardPrefix := ".searchguard."
  const KibanaPrefix := ".kibana."

  /** `default_index()`. */
  function DefaultIndex(conf: Config, env: map<string, string>, level: string): Result<string, Error>
  {
    var d := DefaultsOf(conf);
    if conf.defaults.Some? && d.delete.Some? then
      var del := d.delete.value;
      if del.unit.None? then Err(MissingKey("unit"))
      else if del.count.None? then Err(MissingKey("count"))
      else
        Ok(Invocation(level, ConnectionInfo(env), "delete") + " indices --timestring " + Timestring
           + " --older-than " + IntToString(del.count.value)
           + " --time-unit " + del.unit.value
           + " --exclude " + Quote(IndexPattern(SearchguardPrefix))
           + " --exclude " + Quote(IndexPattern(KibanaPrefix)))
    else Ok("")
  }

  /** The default command's two exclusions match exactly the names starting with `.searchguard.` and `.kibana.`. */
  lemma FixedExcludes()
    ensures LiteralOf(Escape(SearchguardPrefix)) == Some(SearchguardPrefix)
    ensures LiteralOf(Escape(KibanaPrefix)) == Some(KibanaPrefix)
  {
    EscapeReadsBack(SearchguardPrefix);
    EscapeReadsBack(KibanaPrefix);
  }

  /** The pattern of a prefix `.w.` for a word w, and its quoted form. */
  lemma DottedWordPattern(p: string, w: string)
    requires p == "." + w + "." && Word(w)
    ensures IndexPattern(p) == "^\\." + w + "\\..*$"
    ensures Quote(IndexPattern(p)) == "'" + IndexPattern(p) + "'"
  {
    EscapeDotted(w);
    assert "^" + "\\." == "^\\." && "\\." + ".*$" == "\\..*$";
    FrameRegroupShort("^", "\\.", w, "\\.", ".*$", "^\\.", "\\..*$");
    var q := IndexPattern(p);
    assert q[0] == '^' && !SafeChar(q[0]);
    WordHasNoQuote(w);
    assert '\'' !in "^\\." && '\'' !in "\\..*$";
    NotInJoin('\'', "^\\.", w, "\\..*$");
    QuoteWraps(q);
  }

  lemma WordHasNoQuote(w: string)
    requires Word(w)
    ensures '\'' !in w
  {
  }

  /**
   * A key `.w` for a word w is kept as it is: it matches the indices starting
   * with `.w.`, and its exclude clause quotes that pattern.
   */
  lemma DottedKeyPattern(key: string, w: string)
    requires key == "." + w && Word(w)
    ensures Pattern(key, false) == "^\\." + w + "\\..*$"
    ensures ExcludeClause(key, false) == " --exclude " + "'" + Pattern(key, false) + "'"
  {
    assert "." <= key;
    assert Qualified(key) == "." + w + ".";
    DottedWordPattern(Qualified(key), w);
  }

  /** The text of the two fixed patterns and of their quoted form. */
  lemma FixedPattern(p: string, w: string)
    requires p == "." + w + "." && (w == "searchguard" || w == "kibana")
    ensures IndexPattern(p) == "^\\." + w + "\\..*$"
    ensures Quote(IndexPattern(p)) == "'" + IndexPattern(p) + "'"
  {
    assert Word(w);
    DottedWordPattern(p, w);
  }

  /**
   * With a `delete` entry in `.defaults`, the default command deletes indices
   * older than its count in its unit and excludes the indices starting with
   * `.searchguard.` and `.kibana.`, each pattern in single quotes; a missing
   * unit or count is a KeyError. (Without one it is empty:
   * `DefaultIndexEmpty`.) The words `sg` and `kb` are the two fixed names.
   */
  lemma DefaultIndexCases(conf: Config, env: map<string, string>, level: string, sg: string, kb: string)
    requires sg == "searchguard" && kb == "kibana"
    ensures DefaultsOf(conf).delete.Some? ==> match DefaultsOf(conf).delete.value
      case DefaultDelete(None, _) => DefaultIndex(conf, env, level) == Err(MissingKey("unit"))
      case DefaultDelete(Some(_), None) => DefaultIndex(conf, env, level) == Err(MissingKey("count"))
      case DefaultDelete(Some(unit), Some(count)) =>
        DefaultIndex(conf, env, level) == Ok(
          Invocation(level, ConnectionInfo(env), "delete") + " indices --timestring " + Timestring
          + " --older-than " + IntToString(count) + " --time-unit " + unit
          + " --exclude " + ("'" + ("^\\." + sg + "\\..*$") + "'")
          + " --exclude " + ("'" + ("^\\." + kb + "\\..*$") + "'"))
  {
    FixedQuoted(SearchguardPrefix, sg);
    FixedQuoted(KibanaPrefix, kb);
    DefaultIndexBranches(conf, env, level, "'" + ("^\\." + sg + "\\..*$") + "'", "'" + ("^\\." + kb + "\\..*$") + "'");
  }

  /** The branches of `DefaultIndexCases`, with the two quoted patterns given. */
  lemma DefaultIndexBranches(conf: Config, env: map<string, string>, level: string, q1: string, q2: string)
    requires q1 == Quote(IndexPattern(SearchguardPrefix)) && q2 == Quote(IndexPattern(KibanaPrefix))
    ensures DefaultsOf(conf).delete.Some? ==> match DefaultsOf(conf).delete.value
      case DefaultDelete(None, _) => DefaultIndex(conf, env, level) == Err(MissingKey("unit"))
      case DefaultDelete(Some(_), None) => DefaultIndex(conf, env, level) == Err(MissingKey("count"))
      case DefaultDelete(Some(unit), Some(count)) =>
        DefaultIndex(conf, env, level) == Ok(
          Invocation(level, ConnectionInfo(env), "delete") + " indices --timestring " + Timestring
          + " --older-than " + IntToString(count) + " --time-unit " + unit
          + " --exclude " + q1 + " --exclude " + q2)
  {
  }

  /** The quoted form of a fixed pattern as text. */
  lemma FixedQuoted(p: string, w: string)
    requires (p == SearchguardPrefix && w == "searchguard") || (p == KibanaPrefix && w == "kibana")
    ensures Quote(IndexPattern(p)) == "'" + ("^\\." + w + "\\..*$") + "'"
  {
    assert p == "." + w + ".";
    FixedPattern(p, w);
  }

  /** The default command is empty exactly when `.defaults` has no `delete` entry. */
  lemma DefaultIndexEmpty(conf: Config, env: map<string, string>, level: string)
    ensures DefaultIndex(conf, env, level) == Ok("") <==> DefaultsOf(conf).delete.None?
  {
    var d := DefaultsOf(conf);
    if d.delete.Some? && d.delete.value.unit.Some? && d.delete.value.count.Some? {
      InvocationNonEmpty(level, ConnectionInfo(env), "delete");
    }
  }

  lemma InvocationNonEmpty(level: string, conInfo: string, op: string)
    ensures forall tail :: Invocation(level, conInfo, op) + tail != ""
  {
    forall tail
      ensures Invocation(level, conInfo, op) + tail != ""
    {
      assert (Invocation(level, conInfo, op) + tail)[0] == Curator[0];
    }
  }

  // ---------------------------------------------------------------------
  // The per-pattern commands
  // ---------------------------------------------------------------------

  /** The age command for one pattern. */
  function AgeCommand(level: string, conInfo: string, op: string, pattern: string, unit: string, count: int): string {
    Invocation(level, conInfo, op) + " indices --timestring " + Timestring
    + " --older-than " + IntToString(count) + " --time-unit " + unit
    + " --regex " + Quote(pattern)
  }

  /** The disk-space command for one pattern. */
  function DiskCommand(level: string, conInfo: string, op: string, pattern: string, quota: int): string {
    Invocation(level, conInfo, op) + " --disk-space " + IntToString(quota) + " indices --regex " + Quote(pattern)
  }

  /** Both commands end with `--regex` and the quoted pattern, which the shell reads back as the pattern. */
  lemma CommandsEndWithRegex(level: string, conInfo: string, op: string, pattern: string, unit: string, count: int, quota: int)
    ensures EndsWith(AgeCommand(level, conInfo, op, pattern, unit, count), " --regex " + Quote(pattern))
    ensures EndsWith(DiskCommand(level, conInfo, op, pattern, quota), " --regex " + Quote(pattern))
    ensures ShellWord(Quote(pattern)) == Some(pattern)
  {
    AgeEndsWithRegex(level, conInfo, op, pattern, unit, count);
    DiskEndsWithRegex(level, conInfo, op, pattern, quota);
    QuoteRoundTrip(pattern);
  }

  lemma AgeEndsWithRegex(level: string, conInfo: string, op: string, pattern: string, unit: string, count: int)
    ensures EndsWith(AgeCommand(level, conInfo, op, pattern, unit, count), " --regex " + Quote(pattern))
  {
    var age := Invocation(level, conInfo, op) + " indices --timestring " + Timestring
      + " --older-than " + IntToString(count) + " --time-unit " + unit;
    EndsWithJoin(age, " --regex ", Quote(pattern));
  }

  lemma DiskEndsWithRegex(level: string, conInfo: string, op: string, pattern: string, quota: int)
    ensures EndsWith(DiskCommand(level, conInfo, op, pattern, quota), " --regex " + Quote(pattern))
  {
    var disk := Invocation(level, conInfo, op) + " --disk-space " + IntToString(quota);
    assert " indices --regex " == " indices" + " --regex ";
    EndsWithSplit(disk, " indices", " --regex ", Quote(pattern));
  }
}
