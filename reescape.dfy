/**
 * `re.escape` as Python 2.7 defines it: every character other than an ASCII
 * letter, digit or `_` gets a backslash in front, and NUL becomes `\000`.
 * Its partner is the literal reading of a regular expression made only of
 * ordinary and escaped characters, as Python's `re` module reads one.
 */
module ReEscape {
  import opened Wrappers

  const Nul: char := 0 as char

  /** The characters Python 2.7's `re.escape` leaves alone. */
  predicate WordChar(c: char) {
    ('a' <= c <= 'z') || ('A' <= c <= 'Z') || ('0' <= c <= '9') || c == '_'
  }

  predicate AsciiAlnum(c: char) {
    ('a' <= c <= 'z') || ('A' <= c <= 'Z') || ('0' <= c <= '9')
  }

  /** Characters with a meaning of their own in a Python regular expression. */
  predicate RegexSpecial(c: char) {
    c in ".^$*+?{}[]\\|()"
  }

  function EscapeChar(c: char): (r: string)
  {
    if WordChar(c) then [c] else if c == Nul then "\\000" else ['\\', c]
  }

  /** `re.escape(s)`. */
  function Escape(s: string): (r: string)
    decreases |s|
  {
    if s == [] then [] else EscapeChar(s[0]) + Escape(s[1..])
  }

  /**
   * The string a regular expression r matches when r is a sequence of literal
   * atoms: an ordinary character matches itself, `\000` matches NUL, and a
   * backslash before a character that is not an ASCII letter or digit matches
   * that character. None when r contains anything else (a special character,
   * a class escape such as `\d`, a back reference).
   */
  function LiteralOf(r: string): (lit: Option<string>)
    decreases |r|
  {
    if r == [] then Some([])
    else if r[0] == '\\' then
      if |r| >= 4 && r[1..4] == "000" then Prepend(Nul, LiteralOf(r[4..]))
      else if |r| >= 2 && !AsciiAlnum(r[1]) then Prepend(r[1], LiteralOf(r[2..]))
      else None
    else if RegexSpecial(r[0]) then None
    else Prepend(r[0], LiteralOf(r[1..]))
  }

  function Prepend(c: char, o: Option<string>): Option<string> {
    match o
    case None => None
    case Some(s) => Some([c] + s)
  }

  lemma {:induction false} EscapeAppend(a: string, b: string)
    ensures Escape(a + b) == Escape(a) + Escape(b)
    decreases |a|
  {
    if a == [] {
      assert a + b == b;
    } else {
      assert (a + b)[0] == a[0];
      assert (a + b)[1..] == a[1..] + b;
      EscapeAppend(a[1..], b);
    }
  }

  /** Every character escapes to text the literal reading turns back into that character. */
  lemma EscapeCharReads(c: char, rest: string)
    ensures LiteralOf(EscapeChar(c) + rest) == Prepend(c, LiteralOf(rest))
  {
    var r := EscapeChar(c) + rest;
    if WordChar(c) {
      assert r[0] == c && r[1..] == rest;
    } else if c == Nul {
      assert r[1..4] == "000" && r[4..] == rest;
    } else {
      assert r[0] == '\\' && r[1] == c;
      assert r[2..] == rest;
      if |r| >= 4 {
        assert r[1..4][0] == c;
      }
    }
  }

  /**
   * The escaped text is a regular expression that matches exactly the original
   * string: `re.escape` loses nothing and adds no meaning.
   */
  lemma {:induction false} EscapeReadsBack(s: string)
    ensures LiteralOf(Escape(s)) == Some(s)
    decreases |s|
  {
    if s != [] {
      EscapeCharReads(s[0], Escape(s[1..]));
      EscapeReadsBack(s[1..]);
      assert [s[0]] + s[1..] == s;
    }
  }

  /** A word character is kept; any other character is escaped. */
  lemma EscapeCharShape(c: char)
    ensures WordChar(c) <==> EscapeChar(c) == [c]
    ensures !WordChar(c) ==> EscapeChar(c)[0] == '\\'
  {
  }
}
