/**
 * The manifest document: `JSON.stringify(mapping, null, 2)` for a flat
 * object whose values are all strings, and a reader for exactly that layout
 * which takes the document apart again.
 *
 * A mapping is kept as its list of members in the object's property order.
 */
module ManifestJson {
  import opened Wrappers

  type Entries = seq<(string, string)>

  const Quote: char := '"'
  const Backslash: char := '\\'
  /** Backspace and form feed, the two short escapes Dafny has no literal for. */
  const Backspace: char := 8 as char
  const FormFeed: char := 12 as char

  /** The lowercase hexadecimal digit of `n`. */
  function HexDigit(n: nat): char
    requires n < 16
  {
    if n < 10 then ('0' as int + n) as char else ('a' as int + n - 10) as char
  }

  /** The value of a lowercase hexadecimal digit. */
  function HexValue(d: char): Option<nat>
  {
    if '0' <= d <= '9' then Some(d as int - '0' as int)
    else if 'a' <= d <= 'f' then Some(d as int - 'a' as int + 10)
    else None
  }

  lemma HexDigitValue(n: nat)
    requires n < 16
    ensures HexValue(HexDigit(n)) == Some(n)
  {
  }

  /**
   * How JSON.stringify writes one character of a string: the quote and the
   * backslash escaped, the five control characters with a short escape by
   * name, every other control character as `\u00XX`, anything else as is.
   */
  function EscapeChar(c: char): string
  {
    if c == Quote then [Backslash, Quote]
    else if c == Backslash then [Backslash, Backslash]
    else if c == Backspace then [Backslash, 'b']
    else if c == '\t' then [Backslash, 't']
    else if c == '\n' then [Backslash, 'n']
    else if c == FormFeed then [Backslash, 'f']
    else if c == '\r' then [Backslash, 'r']
    else if c < ' ' then [Backslash, 'u', '0', '0', HexDigit(c as int / 16), HexDigit(c as int % 16)]
    else [c]
  }

  function Escape(s: string): string
  {
    if s == [] then [] else EscapeChar(s[0]) + Escape(s[1..])
  }

  /** A string as a JSON string literal. */
  function Quoted(s: string): string
  {
    [Quote] + Escape(s) + [Quote]
  }

  /** One member line: two spaces of indentation, the key, `: `, the value. */
  function Member(key: string, value: string): string
  {
    "  " + Quoted(key) + ": " + Quoted(value)
  }

  /** The member lines joined by `,` and a line break. */
  function Members(es: Entries): string
    requires es != []
  {
    Member(es[0].0, es[0].1) + (if |es| == 1 then "" else ",\n" + Members(es[1..]))
  }

  /** `JSON.stringify(mapping, null, 2)`: `{}` when empty, else one member per line. */
  function Serialize(es: Entries): string
  {
    if es == [] then "{}" else "{\n" + Members(es) + "\n}"
  }

  /** The character a one-letter escape stands for. */
  function ShortEscape(d: char): Option<char>
  {
    if d == Quote then Some(Quote)
    else if d == Backslash then Some(Backslash)
    else if d == 'b' then Some(Backspace)
    else if d == 't' then Some('\t')
    else if d == 'n' then Some('\n')
    else if d == 'f' then Some(FormFeed)
    else if d == 'r' then Some('\r')
    else None
  }

  /** The character written as `\u00` followed by the two digits. */
  function ControlEscape(hi: char, lo: char): Option<char>
  {
    match (HexValue(hi), HexValue(lo))
    case (Some(h), Some(l)) => if h < 2 then Some((16 * h + l) as char) else None
    case _ => None
  }

  /**
   * Reads the body of a string literal up to and including its closing
   * quote; yields the text it stands for and what follows the quote.
   */
  function ReadString(s: string): (r: Option<(string, string)>)
    decreases |s|
    ensures r.Some? ==> |r.value.1| < |s|
  {
    if s == [] then None
    else if s[0] == Quote then Some(([], s[1..]))
    else if s[0] == Backslash then
      if |s| >= 2 && s[1] != 'u' then
        match ShortEscape(s[1])
        case None => None
        case Some(c) => Prepend(c, ReadString(s[2..]))
      else if |s| >= 6 && s[1..4] == ['u', '0', '0'] then
        match ControlEscape(s[4], s[5])
        case None => None
        case Some(c) => Prepend(c, ReadString(s[6..]))
      else None
    else Prepend(s[0], ReadString(s[1..]))
  }

  function Prepend(c: char, r: Option<(string, string)>): (p: Option<(string, string)>)
    ensures p.Some? <==> r.Some?
    ensures p.Some? ==> p.value.1 == r.value.1
  {
    match r
    case None => None
    case Some((v, rest)) => Some(([c] + v, rest))
  }

  /** Reads `"` + literal at the start of `s`. */
  function ReadQuoted(s: string): (r: Option<(string, string)>)
    ensures r.Some? ==> |r.value.1| < |s|
  {
    if |s| > 0 && s[0] == Quote then ReadString(s[1..]) else None
  }

  /** Reads one member line; yields the key, the value and what follows. */
  function ReadMember(s: string): (r: Option<(string, string, string)>)
    ensures r.Some? ==> |r.value.2| < |s|
  {
    if |s| >= 2 && s[..2] == "  " then
      match ReadQuoted(s[2..])
      case None => None
      case Some((key, rest)) =>
        if |rest| >= 2 && rest[..2] == ": " then
          match ReadQuoted(rest[2..])
          case None => None
          case Some((value, rest')) => Some((key, value, rest'))
        else None
    else None
  }

  /** Reads the member lines up to the closing `\n}`, which must end the document. */
  function ReadMembers(s: string): Option<Entries>
    decreases |s|
  {
    match ReadMember(s)
    case None => None
    case Some((key, value, rest)) =>
      if rest == "\n}" then Some([(key, value)])
      else if |rest| >= 2 && rest[..2] == ",\n" then
        match ReadMembers(rest[2..])
        case None => None
        case Some(es) => Some([(key, value)] + es)
      else None
  }

  /** Reads a manifest document back into its members. */
  function Parse(doc: string): Option<Entries>
  {
    if doc == "{}" then Some([])
    else if |doc| >= 2 && doc[..2] == "{\n" then ReadMembers(doc[2..])
    else None
  }

  /** Reading one written character gives back that character and reads on after it. */
  lemma ReadEscapedChar(c: char, t: string)
    ensures ReadString(EscapeChar(c) + t) == Prepend(c, ReadString(t))
  {
    var s := EscapeChar(c) + t;
    if c == Quote || c == Backslash || c == Backspace || c == '\t' || c == '\n' || c == FormFeed || c == '\r' {
      assert s[2..] == t;
    } else if c < ' ' {
      var hi, lo := c as int / 16, c as int % 16;
      HexDigitValue(hi);
      HexDigitValue(lo);
      assert s[1..4] == ['u', '0', '0'];
      assert s[6..] == t;
    } else {
      assert s[1..] == t;
    }
  }

  /** The written body of `x`, then the closing quote, reads back as `x`. */
  lemma {:induction false} ReadEscaped(x: string, rest: string)
    ensures ReadString(Escape(x) + ([Quote] + rest)) == Some((x, rest))
  {
    if x == [] {
      assert Escape(x) + ([Quote] + rest) == [Quote] + rest;
    } else {
      var tail := Escape(x[1..]) + ([Quote] + rest);
      assert Escape(x) + ([Quote] + rest) == EscapeChar(x[0]) + tail;
      ReadEscapedChar(x[0], tail);
      ReadEscaped(x[1..], rest);
      assert [x[0]] + x[1..] == x;
    }
  }

  lemma ReadQuotedOf(x: string, rest: string)
    ensures ReadQuoted(Quoted(x) + rest) == Some((x, rest))
  {
    var s := Quoted(x) + rest;
    assert s[1..] == Escape(x) + ([Quote] + rest);
    ReadEscaped(x, rest);
  }

  lemma ReadMemberOf(key: string, value: string, rest: string)
    ensures ReadMember(Member(key, value) + rest) == Some((key, value, rest))
  {
    var after := ": " + (Quoted(value) + rest);
    var s := "  " + (Quoted(key) + after);
    MemberLayout(Quoted(key), Quoted(value), rest);
    ReadQuotedOf(key, after);
    ReadQuotedOf(value, rest);
    ReadMemberWhen(s, key, after, value, rest);
  }

  /** The layout of a member line followed by `rest`, grouped from the right. */
  lemma MemberLayout(k: string, v: string, rest: string)
    ensures "  " + k + ": " + v + rest == "  " + (k + (": " + (v + rest)))
  {
  }

  /** `ReadMember` succeeds on the indentation, a literal, `: ` and a second literal. */
  lemma ReadMemberWhen(s: string, key: string, after: string, value: string, rest: string)
    requires |s| >= 2 && s[..2] == "  " && ReadQuoted(s[2..]) == Some((key, after))
    requires |after| >= 2 && after[..2] == ": " && ReadQuoted(after[2..]) == Some((value, rest))
    ensures ReadMember(s) == Some((key, value, rest))
  {
  }

  lemma {:induction false} ReadMembersOf(es: Entries)
    requires es != []
    ensures ReadMembers(Members(es) + "\n}") == Some(es)
  {
    if |es| == 1 {
      assert Members(es) + "\n}" == Member(es[0].0, es[0].1) + "\n}";
      ReadMemberOf(es[0].0, es[0].1, "\n}");
      assert es == [(es[0].0, es[0].1)];
    } else {
      var rest := ",\n" + (Members(es[1..]) + "\n}");
      assert Members(es) + "\n}" == Member(es[0].0, es[0].1) + rest;
      ReadMemberOf(es[0].0, es[0].1, rest);
      assert rest[0] == ',';
      assert rest[2..] == Members(es[1..]) + "\n}";
      ReadMembersOf(es[1..]);
      assert [es[0]] + es[1..] == es;
    }
  }

  /** Reading a written manifest gives back exactly its members, in order. */
  lemma ParseSerialize(es: Entries)
    ensures Parse(Serialize(es)) == Some(es)
  {
    if es != [] {
      ParseBody(Members(es));
      ReadMembersOf(es);
    }
  }

  /** A document opened by `{` and a line break is read from its third character on. */
  lemma ParseBody(m: string)
    ensures Parse("{\n" + m + "\n}") == ReadMembers(m + "\n}")
  {
    var doc := "{\n" + m + "\n}";
    assert doc[1] == '\n';
    assert doc[2..] == m + "\n}";
  }

  /** Two mappings are written to the same document only when they are the same mapping. */
  lemma SerializeInjective(a: Entries, b: Entries)
    requires Serialize(a) == Serialize(b)
    ensures a == b
  {
    ParseSerialize(a);
    ParseSerialize(b);
  }
}
