/** The five named value formats of the validation engine (email, url, ip,
    date, hexColor), written as character predicates equivalent to the
    regular expressions both clients compile. The Java client and the Go
    client use the same expressions, but the two regular-expression engines
    read two of them differently: `\s` includes the vertical tab only in
    Java, and Java's `matches()` must consume the whole value while Go's
    `MatchString` only needs a match starting at the front (which matters
    for the url pattern, the only one without a trailing `$`). */
module Patterns {
  import opened Wrappers
  import opened Text

  datatype Dialect = JavaRegex | GoRegexp

  predicate IsDigit(c: char) { '0' <= c <= '9' }

  predicate IsHexDigit(c: char) { IsDigit(c) || 'a' <= c <= 'f' || 'A' <= c <= 'F' }

  predicate AllDigits(s: string) { forall i :: 0 <= i < |s| ==> IsDigit(s[i]) }

  predicate AllHex(s: string) { forall i :: 0 <= i < |s| ==> IsHexDigit(s[i]) }

  /** The class `\s`: space, tab, line feed, form feed, carriage return, and
      in Java also the vertical tab. */
  predicate IsSpace(d: Dialect, c: char)
  {
    c == ' ' || c == '\t' || c == '\n' || c == '\r' || c as int == 0x0C
    || (d == JavaRegex && c as int == 0x0B)
  }

  /** The characters `.` does not match: Java excludes every line
      terminator, Go only the line feed. */
  predicate IsLineBreak(d: Dialect, c: char)
  {
    c == '\n'
    || (d == JavaRegex && (c == '\r' || c as int == 0x85 || c as int == 0x2028 || c as int == 0x2029))
  }

  /** `^[^\s@]+@[^\s@]+\.[^\s@]+$`: no white space, exactly one '@' with
      something before it, and after it a '.' that is neither the first nor
      the last character of the domain. */
  predicate Email(d: Dialect, s: string)
  {
    var at := IndexOf(s, '@');
    && (forall i :: 0 <= i < |s| ==> !IsSpace(d, s[i]))
    && 0 < at < |s|
    && (forall i :: at < i < |s| ==> s[i] != '@')
    && (exists j :: at + 1 < j < |s| - 1 && s[j] == '.')
  }

  /** What follows the `https?://` prefix, or None without that prefix. */
  function AfterScheme(s: string): Option<string>
  {
    if |s| >= 8 && s[..8] == "https://" then Some(s[8..])
    else if |s| >= 7 && s[..7] == "http://" then Some(s[7..])
    else None
  }

  /** `^https?://.+`: the scheme prefix and then at least one character
      that `.` matches; Java's whole-value match makes every remaining
      character subject to `.`, Go's prefix match only the first. */
  predicate Url(d: Dialect, s: string)
  {
    match AfterScheme(s)
    case None => false
    case Some(rest) =>
      && |rest| >= 1
      && (if d == JavaRegex
          then forall i :: 0 <= i < |rest| ==> !IsLineBreak(d, rest[i])
          else !IsLineBreak(d, rest[0]))
  }

  /** One alternative of `25[0-5]|2[0-4][0-9]|[01]?[0-9][0-9]?`, spelt out
      by length. */
  predicate Octet(t: string)
  {
    || (|t| == 1 && IsDigit(t[0]))
    || (|t| == 2 && IsDigit(t[0]) && IsDigit(t[1]))
    || (|t| == 3 && (t[0] == '0' || t[0] == '1') && IsDigit(t[1]) && IsDigit(t[2]))
    || (|t| == 3 && t[0] == '2' && '0' <= t[1] <= '4' && IsDigit(t[2]))
    || (|t| == 3 && t[0] == '2' && t[1] == '5' && '0' <= t[2] <= '5')
  }

  /** The octet alternatives accept exactly the one- to three-digit
      decimal numerals (leading zeros allowed) whose value fits a byte. */
  lemma OctetIsByteNumeral(t: string)
    ensures Octet(t) <==> 1 <= |t| <= 3 && AllDigits(t) && DecimalValue(t) <= 255
  {
    if 1 <= |t| <= 3 && AllDigits(t) {
      var d0 := t[0] as int - '0' as int;
      assert DecimalValue(t[..0]) == 0;
      assert DecimalValue(t[..1]) == d0;
      if |t| >= 2 {
        var d1 := t[1] as int - '0' as int;
        assert t[..2][..1] == t[..1];
        assert DecimalValue(t[..2]) == 10 * d0 + d1;
        if |t| == 3 {
          var d2 := t[2] as int - '0' as int;
          assert t[..3] == t && t[..2] == t[..|t| - 1];
          assert DecimalValue(t) == 100 * d0 + 10 * d1 + d2;
        } else {
          assert t[..2] == t;
        }
      } else {
        assert t[..1] == t;
      }
    }
  }

  /** The IPv4 alternative: four octets separated by dots. The octets
      contain no dot, so splitting on '.' recovers them. */
  predicate IPv4(s: string)
  {
    var parts := Split(s, '.');
    |parts| == 4 && forall i :: 0 <= i < 4 ==> Octet(parts[i])
  }

  /** The IPv6 alternative `([0-9a-fA-F]{1,4}:){7}[0-9a-fA-F]{1,4}`: eight
      groups of one to four hex digits separated by colons (no `::`
      shorthand). */
  predicate IPv6(s: string)
  {
    var parts := Split(s, ':');
    |parts| == 8 && forall i :: 0 <= i < 8 ==> 1 <= |parts[i]| <= 4 && AllHex(parts[i])
  }

  predicate Ip(s: string) { IPv4(s) || IPv6(s) }

  /** `^\d{4}-\d{2}-\d{2}$`: the digit layout only, with no range check on
      month or day. */
  predicate Date(s: string)
  {
    && |s| == 10
    && AllDigits(s[..4]) && s[4] == '-'
    && AllDigits(s[5..7]) && s[7] == '-'
    && AllDigits(s[8..])
  }

  /** `^#?([0-9a-fA-F]{3}|[0-9a-fA-F]{6})$`: an optional '#' and then
      exactly three or six hex digits. */
  predicate HexColor(s: string)
  {
    var digits := if |s| > 0 && s[0] == '#' then s[1..] else s;
    (|digits| == 3 || |digits| == 6) && AllHex(digits)
  }

  /** The pattern table: whether `s` matches the pattern registered under
      `format`, or None when no pattern has that name. */
  function FormatMatches(d: Dialect, format: string, s: string): Option<bool>
  {
    if format == "email" then Some(Email(d, s))
    else if format == "url" then Some(Url(d, s))
    else if format == "ip" then Some(Ip(s))
    else if format == "date" then Some(Date(s))
    else if format == "hexColor" then Some(HexColor(s))
    else None
  }

  /** Exactly the five names of the table have a pattern. */
  lemma FormatTableKeys(d: Dialect, format: string, s: string)
    ensures FormatMatches(d, format, s).Some?
            <==> format in {"email", "url", "ip", "date", "hexColor"}
  {
  }

  /** The two dialects disagree on a url whose text continues past a line
      break: Go's `.` crosses it, Java's does not. */
  lemma UrlDialectsDiffer()
    ensures Url(GoRegexp, "http://a\nb") && !Url(JavaRegex, "http://a\nb")
  {
    var u := "http://a\nb";
    assert u[..8] != "https://" by { assert u[4] == ':'; }
    assert u[..7] == "http://";
    assert u[7..][0] == 'a' && u[7..][1] == '\n';
    assert AfterScheme(u) == Some(u[7..]);
    assert IsLineBreak(JavaRegex, u[7..][1]);
  }

  /** ... and on an address holding a vertical tab, which only Java's `\s`
      counts as a space. */
  lemma EmailDialectsDiffer()
    ensures Email(GoRegexp, "a\U{B}b@c.d") && !Email(JavaRegex, "a\U{B}b@c.d")
  {
    var s := "a\U{B}b@c.d";
    assert IndexOf(s, '@') == 3;
    assert s[5] == '.';
    assert IsSpace(JavaRegex, s[1]);
  }

  /** In either dialect a plain address matches and a text without '@'
      does not. */
  lemma EmailExamples(d: Dialect)
    ensures Email(d, "a@b.co")
    ensures !Email(d, "not-an-email")
  {
    assert IndexOf("a@b.co", '@') == 1;
    assert "a@b.co"[3] == '.';
    assert forall i :: 0 <= i < 12 ==> "not-an-email"[i] != '@';
  }

  /** A three- or six-digit colour passes with or without its '#'; four
      digits do not. */
  lemma HexColorExamples()
    ensures HexColor("#fff") && HexColor("a1b2c3")
    ensures !HexColor("#ffff")
  {
    assert "#fff"[1..] == "fff";
    assert "#ffff"[1..] == "ffff";
  }

  /** Only the digit layout of a date is checked: month 13 and day 45
      pass, a one-digit month does not. */
  lemma DateExamples()
    ensures Date("2024-13-45")
    ensures !Date("2024-1-045")
  {
    var s := "2024-13-45";
    assert s[..4] == "2024" && s[5..7] == "13" && s[8..] == "45";
    assert "2024-1-045"[7] == '0';
  }

  /** A bare scheme is not a url, in either dialect. */
  lemma BareSchemeRejected(d: Dialect)
    ensures !Url(d, "http://") && !Url(d, "https://")
  {
    assert "http://"[..7] == "http://";
    assert "https://"[..8] == "https://";
  }
}
