/**
 * `shellquote`, which the command generator takes from `shlex.quote` or,
 * on Python 2, from `pipes.quote` (both behave alike), and a reading of a
 * shell word after the quoting rules of the POSIX Shell Command Language
 * (section 2.2, "Quoting", of POSIX.1-2017), against which the quoting is
 * proved correct.
 */
module ShellQuote {
  import opened Wrappers

  /** The characters `pipes.quote` leaves alone: letters, digits and `_@%+=:,./-`. */
  predicate SafeChar(c: char) {
    ('a' <= c <= 'z') || ('A' <= c <= 'Z') || ('0' <= c <= '9') || c in "_@%+=:,./-"
  }

  predicate AllSafe(s: string) {
    forall k :: 0 <= k < |s| ==> SafeChar(s[k])
  }

  predicate NoSingleQuote(s: string) {
    forall k :: 0 <= k < |s| ==> s[k] != '\''
  }

  /** `s.replace("'", "'\"'\"'")`: every single quote closes the quoting, is written inside double quotes, and reopens it. */
  function EscapeQuotes(s: string): (r: string)
    decreases |s|
  {
    if s == [] then [] else (if s[0] == '\'' then "'\"'\"'" else [s[0]]) + EscapeQuotes(s[1..])
  }

  /** `shellquote(s)`. */
  function Quote(s: string): (r: string)
  {
    if s == [] then "''"
    else if AllSafe(s) then s
    else "'" + EscapeQuotes(s) + "'"
  }

  // ---------------------------------------------------------------------
  // Reading a word back, as the shell does
  // ---------------------------------------------------------------------

  /**
   * Characters that do not stand for themselves in an unquoted word: blanks
   * and newline end the word, the others are operators, quotes, the escape
   * character, expansions or pattern characters (`#` and `~` count here
   * wherever they occur, which is stricter than the shell).
   */
  predicate ShellSpecial(c: char) {
    c in " \t\n|&;<>()$`\\\"'*?[]#~{}!"
  }

  /** The body of a single-quoted part, up to its closing quote, and what follows it. */
  function SingleQuoted(w: string): (r: Option<(string, string)>)
    ensures r.Some? ==> |r.value.1| < |w|
    decreases |w|
  {
    if w == [] then None
    else if w[0] == '\'' then Some(([], w[1..]))
    else match SingleQuoted(w[1..])
      case None => None
      case Some((body, rest)) => Some(([w[0]] + body, rest))
  }

  /**
   * The body of a double-quoted part, up to its closing quote, and what follows
   * it. Inside double quotes a backslash escapes only `$`, backquote, `"`, a
   * backslash or a newline (which it removes); an unescaped `$` or backquote
   * starts an expansion, which this reading does not follow.
   */
  function DoubleQuoted(w: string): (r: Option<(string, string)>)
    ensures r.Some? ==> |r.value.1| < |w|
    decreases |w|
  {
    if w == [] then None
    else if w[0] == '"' then Some(([], w[1..]))
    else if w[0] == '$' || w[0] == '`' then None
    else if w[0] == '\\' && |w| >= 2 && w[1] in "$`\"\\\n" then
      match DoubleQuoted(w[2..])
      case None => None
      case Some((body, rest)) => Some((if w[1] == '\n' then body else [w[1]] + body, rest))
    else
      match DoubleQuoted(w[1..])
      case None => None
      case Some((body, rest)) => Some(([w[0]] + body, rest))
  }

  /**
   * The argument the shell makes of the text w when w is exactly one word
   * with no expansion in it; None otherwise.
   */
  function ShellWord(w: string): (r: Option<string>)
    decreases |w|
  {
    if w == [] then Some([])
    else if w[0] == '\'' then
      match SingleQuoted(w[1..])
      case None => None
      case Some((body, rest)) => Concat(body, ShellWord(rest))
    else if w[0] == '"' then
      match DoubleQuoted(w[1..])
      case None => None
      case Some((body, rest)) => Concat(body, ShellWord(rest))
    else if w[0] == '\\' then
      if |w| < 2 then None
      else if w[1] == '\n' then ShellWord(w[2..])
      else Concat([w[1]], ShellWord(w[2..]))
    else if ShellSpecial(w[0]) then None
    else Concat([w[0]], ShellWord(w[1..]))
  }

  function Concat(a: string, b: Option<string>): Option<string> {
    match b
    case None => None
    case Some(v) => Some(a + v)
  }

  // ---------------------------------------------------------------------
  // Properties
  // ---------------------------------------------------------------------

  lemma SafeIsNotSpecial(c: char)
    requires SafeChar(c)
    ensures !ShellSpecial(c) && c != '\''
  {
    if c in "_@%+=:,./-" {
      assert c == '_' || c == '@' || c == '%' || c == '+' || c == '=' || c == ':' || c == ',' || c == '.' || c == '/' || c == '-';
    }
  }

  /** A word made only of safe characters is read back as itself. */
  lemma {:induction false} SafeWordReadsBack(s: string)
    requires AllSafe(s)
    ensures ShellWord(s) == Some(s)
    decreases |s|
  {
    if s != [] {
      SafeIsNotSpecial(s[0]);
      assert AllSafe(s[1..]) by {
        forall k | 0 <= k < |s[1..]| ensures SafeChar(s[1..][k]) {
          assert s[1..][k] == s[k + 1];
        }
      }
      SafeWordReadsBack(s[1..]);
      assert [s[0]] + s[1..] == s;
    }
  }

  /** A single-quoted part ends at the first single quote. */
  lemma {:induction false} SingleQuotedReads(t: string, rest: string)
    requires NoSingleQuote(t)
    ensures SingleQuoted(t + "'" + rest) == Some((t, rest))
    decreases |t|
  {
    if t == [] {
      assert t + "'" + rest == "'" + rest;
    } else {
      assert (t + "'" + rest)[1..] == t[1..] + "'" + rest;
      assert NoSingleQuote(t[1..]) by {
        forall k | 0 <= k < |t[1..]| ensures t[1..][k] != '\'' {
          assert t[1..][k] == t[k + 1];
        }
      }
      SingleQuotedReads(t[1..], rest);
      assert [t[0]] + t[1..] == t;
    }
  }

  /** A single-quoted part with no quote inside is read as its body. */
  lemma SingleQuotedPart(t: string, rest: string)
    requires NoSingleQuote(t)
    ensures ShellWord("'" + t + "'" + rest) == Concat(t, ShellWord(rest))
  {
    var w := "'" + t + "'" + rest;
    assert w[0] == '\'' && w[1..] == t + "'" + rest;
    SingleQuotedReads(t, rest);
  }

  /** A single quote written inside double quotes is read as itself. */
  lemma DoubleQuotedQuote(rest: string)
    ensures ShellWord("\"'\"" + rest) == Concat("'", ShellWord(rest))
  {
    var dq := "\"" + rest;
    assert dq[0] == '"' && dq[1..] == rest;
    assert DoubleQuoted(dq) == Some(([], rest));
    var v := "'" + dq;
    assert v[0] == '\'' && v[1..] == dq;
    assert DoubleQuoted(v) == Some(([v[0]] + [], rest));
    var w := "\"" + v;
    assert w == "\"'\"" + rest;
    assert w[0] == '"' && w[1..] == v;
    assert [v[0]] + [] == "'";
    assert DoubleQuoted(w[1..]) == Some(("'", rest));
  }

  /** The text of `EscapeQuotes(s)` between single quotes is read back as s, followed by the reading of what comes after. */
  lemma {:induction false} QuotedPartReads(s: string, rest: string)
    ensures ShellWord("'" + EscapeQuotes(s) + "'" + rest) == Concat(s, ShellWord(rest))
    decreases |s|, 1
  {
    var n := FirstQuote(s);
    if n == |s| {
      assert s[..n] == s;
      NoQuoteEscapesToItself(s);
      SingleQuotedPart(s, rest);
    } else {
      QuotedPartAtQuote(s, rest);
    }
  }

  /** The case of QuotedPartReads where s holds a single quote: the text reads back up to it, then the quote, then the rest of s. */
  lemma {:induction false} QuotedPartAtQuote(s: string, rest: string)
    requires FirstQuote(s) < |s|
    ensures ShellWord("'" + EscapeQuotes(s) + "'" + rest) == Concat(s, ShellWord(rest))
    decreases |s|, 0
  {
    var n := FirstQuote(s);
    var t, u := s[..n], s[n + 1..];
    EscapeQuotesAtQuote(s, n);
    var after := "'" + EscapeQuotes(u) + "'" + rest;
    Regroup(t, EscapeQuotes(u), rest);
    SingleQuotedPart(t, "\"'\"" + after);
    DoubleQuotedQuote(after);
    QuotedPartReads(u, rest);
    ConcatAssoc(t, u, s, ShellWord(rest));
  }

  /** Escaping splits at the first single quote of s, at index n. */
  lemma EscapeQuotesAtQuote(s: string, n: nat)
    requires n < |s| && s[n] == '\'' && NoSingleQuote(s[..n])
    ensures EscapeQuotes(s) == s[..n] + "'\"'\"'" + EscapeQuotes(s[n + 1..])
  {
    var t, u := s[..n], s[n + 1..];
    assert s[n..] == [s[n]] + u;
    assert s == t + s[n..];
    assert s == t + ("'" + u);
    EscapeQuotesAppend(t, "'" + u);
    EscapeQuotesAppend("'", u);
    NoQuoteEscapesToItself(t);
    EscapeOneQuote();
    calc {
      EscapeQuotes(s);
      EscapeQuotes(t) + EscapeQuotes("'" + u);
      t + (EscapeQuotes("'") + EscapeQuotes(u));
      t + ("'\"'\"'" + EscapeQuotes(u));
    }
  }

  lemma EscapeOneQuote()
    ensures EscapeQuotes("'") == "'\"'\"'"
  {
    assert "'"[1..] == [];
  }

  lemma Regroup(t: string, e: string, rest: string)
    ensures "'" + (t + "'\"'\"'" + e) + "'" + rest == "'" + t + "'" + ("\"'\"" + ("'" + e + "'" + rest))
  {
  }

  lemma ConcatAssoc(t: string, u: string, s: string, r: Option<string>)
    requires s == t + "'" + u
    ensures Concat(t, Concat("'", Concat(u, r))) == Concat(s, r)
  {
    if r.Some? {
      assert t + ("'" + (u + r.value)) == s + r.value;
    }
  }

  /** Index of the first single quote in s, or |s| if there is none. */
  function FirstQuote(s: string): (n: nat)
    ensures n <= |s|
    ensures NoSingleQuote(s[..n])
    ensures n < |s| ==> s[n] == '\''
    decreases |s|
  {
    if s == [] then 0
    else if s[0] == '\'' then 0
    else
      var m := FirstQuote(s[1..]);
      assert s[..m + 1] == [s[0]] + s[1..][..m];
      m + 1
  }

  lemma {:induction false} NoQuoteEscapesToItself(s: string)
    requires NoSingleQuote(s)
    ensures EscapeQuotes(s) == s
    decreases |s|
  {
    if s != [] {
      assert NoSingleQuote(s[1..]) by {
        forall k | 0 <= k < |s[1..]| ensures s[1..][k] != '\'' {
          assert s[1..][k] == s[k + 1];
        }
      }
      NoQuoteEscapesToItself(s[1..]);
      assert [s[0]] + s[1..] == s;
    }
  }

  lemma {:induction false} EscapeQuotesAppend(a: string, b: string)
    ensures EscapeQuotes(a + b) == EscapeQuotes(a) + EscapeQuotes(b)
    decreases |a|
  {
    if a == [] {
      assert a + b == b;
    } else {
      assert (a + b)[0] == a[0];
      assert (a + b)[1..] == a[1..] + b;
      EscapeQuotesAppend(a[1..], b);
    }
  }

  /**
   * The round trip: the shell reads `shellquote(s)` back as exactly s, for
   * every string s, and the quoted text is never empty (so it is always one
   * argument).
   */
  lemma QuoteRoundTrip(s: string)
    ensures Quote(s) != []
    ensures ShellWord(Quote(s)) == Some(s)
  {
    if s == [] {
      assert SingleQuoted("'") == Some(([], []));
    } else if AllSafe(s) {
      SafeWordReadsBack(s);
    } else {
      QuotedPartReads(s, []);
      assert "'" + EscapeQuotes(s) + "'" + [] == Quote(s);
      assert ShellWord([]) == Some([]);
      assert s + [] == s;
    }
  }

  /** A string with no single quote and some unsafe character is quoted by wrapping it in single quotes. */
  lemma QuoteWraps(s: string)
    requires '\'' !in s && !AllSafe(s)
    ensures Quote(s) == "'" + s + "'"
  {
    assert NoSingleQuote(s) by {
      forall k | 0 <= k < |s| ensures s[k] != '\'' {
        assert s[k] in s;
      }
    }
    NoQuoteEscapesToItself(s);
  }

  /** Wrapping a quote-free string in single quotes is read back as that string. */
  lemma WrappedReadsBack(s: string)
    requires '\'' !in s
    ensures ShellWord("'" + s + "'") == Some(s)
  {
    assert NoSingleQuote(s) by {
      forall k | 0 <= k < |s| ensures s[k] != '\'' {
        assert s[k] in s;
      }
    }
    SingleQuotedPart(s, []);
    assert "'" + s + "'" + [] == "'" + s + "'";
    assert ShellWord([]) == Some([]);
    assert s + [] == s;
  }
}
