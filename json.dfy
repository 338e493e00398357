/**
 * `JSON.stringify` of a flat record whose values are all strings, as the canonical
 * key encoder produces it: `{"k1":"v1","k2":"v2"}` with each string quoted by the
 * QuoteJSONString operation of section 25.5.2.3 of ECMA-262.
 *
 * The decoder below reads that output back; the round trip proves that the
 * serialisation is injective.
 */
module Json {
  import opened JsValues

  type Record = seq<(string, string)>

  function HexDigit(d: int): char
    requires 0 <= d < 16
  {
    "0123456789abcdef"[d]
  }

  function HexValue(c: char): (r: Option<int>)
    ensures r.Some? ==> 0 <= r.value < 16
  {
    if '0' <= c <= '9' then Some(c as int - '0' as int)
    else if 'a' <= c <= 'f' then Some(c as int - 'a' as int + 10)
    else None
  }

  lemma HexRoundTrip(d: int)
    requires 0 <= d < 16
    ensures HexValue(HexDigit(d)) == Some(d)
  {
  }

  /** How QuoteJSONString writes one code point. */
  function EscapeChar(c: char): string
  {
    if c == '"' then ['\\', '"']
    else if c == '\\' then ['\\', '\\']
    else if c == '\U{0008}' then ['\\', 'b']
    else if c == '\t' then ['\\', 't']
    else if c == '\n' then ['\\', 'n']
    else if c == '\U{000C}' then ['\\', 'f']
    else if c == '\r' then ['\\', 'r']
    else if c < ' ' then ['\\', 'u', '0', '0', HexDigit(c as int / 16), HexDigit(c as int % 16)]
    else [c]
  }

  function Escape(s: string): string
  {
    if |s| == 0 then [] else EscapeChar(s[0]) + Escape(s[1..])
  }

  /** A JSON string literal. */
  function Quote(s: string): string
  {
    ['"'] + Escape(s) + ['"']
  }

  function Member(e: (string, string)): string
  {
    Quote(e.0) + [':'] + Quote(e.1)
  }

  /** The members after the first, each preceded by a comma. */
  function MoreMembers(es: Record): string
  {
    if |es| == 0 then [] else [','] + Member(es[0]) + MoreMembers(es[1..])
  }

  function Members(es: Record): string
  {
    if |es| == 0 then [] else Member(es[0]) + MoreMembers(es[1..])
  }

  /** `JSON.stringify(record)` for a record of string values, in property order. */
  function Stringify(es: Record): string
  {
    ['{'] + Members(es) + ['}']
  }

  // ---------------------------------------------------------------------------
  // Reading the output back

  /** Decodes the escape sequence that follows a backslash: the character and how many characters it took. */
  function DecodeEscape(t: string): (r: Option<(char, nat)>)
    ensures r.Some? ==> 1 <= r.value.1 <= |t|
  {
    if |t| == 0 then None
    else if t[0] == '"' then Some(('"', 1))
    else if t[0] == '\\' then Some(('\\', 1))
    else if t[0] == 'b' then Some(('\U{0008}', 1))
    else if t[0] == 't' then Some(('\t', 1))
    else if t[0] == 'n' then Some(('\n', 1))
    else if t[0] == 'f' then Some(('\U{000C}', 1))
    else if t[0] == 'r' then Some(('\r', 1))
    else if t[0] == 'u' && |t| >= 5 && t[1] == '0' && t[2] == '0' then
      match (HexValue(t[3]), HexValue(t[4]))
      case (Some(h), Some(l)) => if h < 2 then Some(((h * 16 + l) as char, 5)) else None
      case _ => None
    else None
  }

  /** Reads the body of a string literal up to its closing quote: the decoded text and what follows. */
  function ReadBody(t: string): (r: Option<(string, string)>)
    ensures r.Some? ==> |r.value.1| < |t|
    decreases |t|
  {
    if |t| == 0 then None
    else if t[0] == '"' then Some(([], t[1..]))
    else if t[0] == '\\' then
      match DecodeEscape(t[1..])
      case None => None
      case Some(p) =>
        match ReadBody(t[1 + p.1..])
        case None => None
        case Some(q) => Some(([p.0] + q.0, q.1))
    else
      match ReadBody(t[1..])
      case None => None
      case Some(q) => Some(([t[0]] + q.0, q.1))
  }

  function ReadString(t: string): (r: Option<(string, string)>)
    ensures r.Some? ==> |r.value.1| < |t|
  {
    if |t| > 0 && t[0] == '"' then ReadBody(t[1..]) else None
  }

  function ReadMember(t: string): (r: Option<((string, string), string)>)
    ensures r.Some? ==> |r.value.1| < |t|
  {
    match ReadString(t)
    case None => None
    case Some(p) =>
      if |p.1| > 0 && p.1[0] == ':' then
        match ReadString(p.1[1..])
        case None => None
        case Some(q) => Some(((p.0, q.0), q.1))
      else None
  }

  /** Reads `,member` items for as long as a comma follows. */
  function ReadMore(t: string): (r: Option<(Record, string)>)
    ensures r.Some? ==> |r.value.1| <= |t|
    decreases |t|
  {
    if |t| > 0 && t[0] == ',' then
      match ReadMember(t[1..])
      case None => None
      case Some(p) =>
        match ReadMore(p.1)
        case None => None
        case Some(q) => Some(([p.0] + q.0, q.1))
    else Some(([], t))
  }

  function ReadMembers(t: string): (r: Option<(Record, string)>)
    ensures r.Some? ==> |r.value.1| < |t|
  {
    match ReadMember(t)
    case None => None
    case Some(p) =>
      match ReadMore(p.1)
      case None => None
      case Some(q) => Some(([p.0] + q.0, q.1))
  }

  /** Parses the text `Stringify` writes. */
  function Parse(t: string): Option<Record>
  {
    if |t| >= 2 && t[0] == '{' then
      if t[1] == '}' then (if |t| == 2 then Some([]) else None)
      else
        match ReadMembers(t[1..])
        case None => None
        case Some(p) => if p.1 == ['}'] then Some(p.0) else None
    else None
  }

  // ---------------------------------------------------------------------------
  // Round trip

  /** A backslash, then an escape `e` that decodes to `c`. */
  lemma ReadEscapeSequence(e: string, c: char, t: string)
    requires ReadBody(t).Some? && |e| >= 1
    requires DecodeEscape(e + t) == Some((c, |e|))
    ensures ReadBody(['\\'] + e + t) == Some(([c] + ReadBody(t).value.0, ReadBody(t).value.1))
  {
    var v := e + t;
    var u := ['\\'] + v;
    assert ['\\'] + e + t == u;
    assert u[1..] == v && v[|e|..] == t;
    assert u[1 + |e|..] == t;
  }

  /** A control character written as `\u00XX`. */
  lemma ReadHexEscape(c: char, t: string)
    requires ReadBody(t).Some?
    requires c < ' ' && c != '\U{0008}' && c != '\t' && c != '\n' && c != '\U{000C}' && c != '\r'
    ensures ReadBody(EscapeChar(c) + t) == Some(([c] + ReadBody(t).value.0, ReadBody(t).value.1))
  {
    var h, l := c as int / 16, c as int % 16;
    var e := ['u', '0', '0', HexDigit(h), HexDigit(l)];
    assert EscapeChar(c) == ['\\'] + e;
    HexRoundTrip(h);
    HexRoundTrip(l);
    assert (e + t)[..5] == e;
    assert DecodeEscape(e + t) == Some((c, 5));
    ReadEscapeSequence(e, c, t);
  }

  /** A character written as a backslash and one letter. */
  lemma ReadShortEscape(c: char, t: string)
    requires ReadBody(t).Some?
    requires c == '"' || c == '\\' || c == '\U{0008}' || c == '\t' || c == '\n' || c == '\U{000C}' || c == '\r'
    ensures ReadBody(EscapeChar(c) + t) == Some(([c] + ReadBody(t).value.0, ReadBody(t).value.1))
  {
    var e := [EscapeChar(c)[1]];
    assert EscapeChar(c) == ['\\'] + e;
    assert DecodeEscape(e + t) == Some((c, 1));
    ReadEscapeSequence(e, c, t);
  }

  lemma ReadEscapedChar(c: char, t: string)
    requires ReadBody(t).Some?
    ensures ReadBody(EscapeChar(c) + t) == Some(([c] + ReadBody(t).value.0, ReadBody(t).value.1))
  {
    if c == '"' || c == '\\' || c == '\U{0008}' || c == '\t' || c == '\n' || c == '\U{000C}' || c == '\r' {
      ReadShortEscape(c, t);
    } else if c < ' ' {
      ReadHexEscape(c, t);
    } else {
      assert EscapeChar(c) + t == [c] + t;
      assert ([c] + t)[1..] == t;
    }
  }

  lemma {:induction false} ReadEscaped(s: string, rest: string)
    ensures ReadBody(Escape(s) + ['"'] + rest) == Some((s, rest))
  {
    if |s| == 0 {
      assert Escape(s) + ['"'] + rest == ['"'] + rest;
    } else {
      ReadEscaped(s[1..], rest);
      var t := Escape(s[1..]) + ['"'] + rest;
      ReadEscapedChar(s[0], t);
      assert Escape(s) + ['"'] + rest == EscapeChar(s[0]) + t;
      assert [s[0]] + s[1..] == s;
    }
  }

  lemma ReadQuoted(s: string, rest: string)
    ensures ReadString(Quote(s) + rest) == Some((s, rest))
  {
    ReadEscaped(s, rest);
    assert (Quote(s) + rest)[1..] == Escape(s) + ['"'] + rest;
  }

  lemma ReadMemberBack(e: (string, string), rest: string)
    ensures ReadMember(Member(e) + rest) == Some((e, rest))
  {
    var t2 := Quote(e.1) + rest;
    var t1 := [':'] + t2;
    assert Member(e) + rest == Quote(e.0) + t1;
    ReadQuoted(e.0, t1);
    assert ReadString(Member(e) + rest) == Some((e.0, t1));
    assert t1[0] == ':' && t1[1..] == t2;
    ReadQuoted(e.1, rest);
    assert ReadString(t1[1..]) == Some((e.1, rest));
  }

  lemma {:induction false} ReadMoreBack(es: Record, rest: string)
    requires |rest| > 0 && rest[0] != ','
    ensures ReadMore(MoreMembers(es) + rest) == Some((es, rest))
  {
    if |es| > 0 {
      var e, tail := es[0], es[1..];
      var t := MoreMembers(tail) + rest;
      assert ReadMore(t) == Some((tail, rest)) by {
        ReadMoreBack(tail, rest);
      }
      var x := [','] + (Member(e) + t);
      assert ReadMore(x) == Some(([e] + tail, rest)) by {
        ReadOneMore(e, tail, t);
      }
      assert MoreMembers(es) + rest == x by {
        MoreMembersCons(es, rest);
      }
      assert [e] + tail == es;
    } else {
      assert MoreMembers(es) + rest == rest;
    }
  }

  lemma MoreMembersCons(es: Record, rest: string)
    requires |es| > 0
    ensures MoreMembers(es) + rest == [','] + (Member(es[0]) + (MoreMembers(es[1..]) + rest))
  {
    assert MoreMembers(es) == [','] + Member(es[0]) + MoreMembers(es[1..]);
    Assoc4([','], Member(es[0]), MoreMembers(es[1..]), rest);
  }

  lemma Assoc4(a: string, b: string, c: string, d: string)
    ensures a + b + c + d == a + (b + (c + d))
  {
  }

  /** One `,member` item followed by text that reads back as `more`. */
  lemma ReadOneMore(e: (string, string), more: Record, t: string)
    requires ReadMore(t).Some? && ReadMore(t).value.0 == more
    ensures ReadMore([','] + (Member(e) + t)) == Some(([e] + more, ReadMore(t).value.1))
  {
    var x := [','] + (Member(e) + t);
    assert x[1..] == Member(e) + t;
    ReadMemberBack(e, t);
  }

  lemma ReadMembersBack(es: Record, rest: string)
    requires |es| > 0
    requires |rest| > 0 && rest[0] != ','
    ensures ReadMembers(Members(es) + rest) == Some((es, rest))
  {
    var t := MoreMembers(es[1..]) + rest;
    assert Members(es) + rest == Member(es[0]) + t;
    assert ReadMember(Member(es[0]) + t) == Some((es[0], t)) by {
      ReadMemberBack(es[0], t);
    }
    assert ReadMore(t) == Some((es[1..], rest)) by {
      ReadMoreBack(es[1..], rest);
    }
    assert [es[0]] + es[1..] == es;
  }

  /** The decoder inverts the serialisation. */
  lemma ParseStringify(es: Record)
    ensures Parse(Stringify(es)) == Some(es)
  {
    var t := Stringify(es);
    if |es| > 0 {
      ReadMembersBack(es, ['}']);
      assert t[1..] == Members(es) + ['}'];
      assert Members(es)[0] == '"';
    }
  }

  /** Distinct records serialise to distinct strings. */
  lemma StringifyInjective(es1: Record, es2: Record)
    requires Stringify(es1) == Stringify(es2)
    ensures es1 == es2
  {
    ParseStringify(es1);
    ParseStringify(es2);
  }
}
