/** The JSON text that `JSON.stringify` writes for a flat object whose members are
    strings or `null` (ECMA-262, section 25.5.2 "JSON.stringify", abstract operations
    QuoteJSONString and SerializeJSONObject), and a reader for that text in the manner
    of `JSON.parse`.

    `JSON.stringify` writes no whitespace, escapes `"` and `\` with a backslash, writes
    backspace, tab, line feed, form feed and carriage return as `\b \t \n \f \r`, any
    other character below U+0020 as `\u00xx` with lower-case hexadecimal digits, and
    every other character as it is. */
module JsonText {
  import opened Wrappers
  import opened HexDigits

  datatype Value = Null | Str(s: string)

  /** An object member: its key and its value, in the order the object lists them. */
  type Member = (string, Value)

  /** The escape table of QuoteJSONString: the letter written after the backslash
      for the five control characters that have a short form. */
  function ShortEscape(n: int): Option<char> {
    if n == 0x08 then Some('b')
    else if n == 0x09 then Some('t')
    else if n == 0x0A then Some('n')
    else if n == 0x0C then Some('f')
    else if n == 0x0D then Some('r')
    else None
  }

  function EscapeChar(c: char): string {
    var n := c as int;
    if c == '"' || c == '\\' then ['\\', c]
    else if ShortEscape(n).Some? then ['\\', ShortEscape(n).value]
    else if n < 0x20 then ['\\', 'u', '0', '0', LowerHexDigit(n / 16), LowerHexDigit(n % 16)]
    else [c]
  }

  /** The characters between the quotes that QuoteJSONString writes. */
  function Escape(s: string): string {
    if s == [] then [] else EscapeChar(s[0]) + Escape(s[1..])
  }

  function Quote(s: string): string {
    ['"'] + (Escape(s) + ['"'])
  }

  function ValueText(v: Value): string {
    match v
    case Null => "null"
    case Str(s) => Quote(s)
  }

  function MemberText(m: Member): string {
    Quote(m.0) + ([':'] + ValueText(m.1))
  }

  /** The members after the first, each preceded by a comma, then the closing brace. */
  function TailText(ms: seq<Member>): string {
    if ms == [] then ['}'] else [','] + (MemberText(ms[0]) + TailText(ms[1..]))
  }

  /** `JSON.stringify` of an object with the members `ms`, in order. */
  function ObjectText(ms: seq<Member>): string {
    if ms == [] then "{}" else ['{'] + (MemberText(ms[0]) + TailText(ms[1..]))
  }

  // ---------------------------------------------------------------------------
  // Reading

  /** Reads the character after a backslash; gives the character it stands for and
      what follows the escape. `\uXXXX` naming a surrogate is refused. */
  function ParseEscape(s: string): (r: Option<(char, string)>)
    ensures r.Some? ==> |r.value.1| < |s|
  {
    if s == [] then None
    else if s[0] == '"' || s[0] == '\\' || s[0] == '/' then Some((s[0], s[1..]))
    else if s[0] == 'b' then Some((8 as char, s[1..]))
    else if s[0] == 't' then Some((9 as char, s[1..]))
    else if s[0] == 'n' then Some((10 as char, s[1..]))
    else if s[0] == 'f' then Some((12 as char, s[1..]))
    else if s[0] == 'r' then Some((13 as char, s[1..]))
    else if s[0] == 'u' && 5 <= |s| && IsHexDigit(s[1]) && IsHexDigit(s[2]) && IsHexDigit(s[3]) && IsHexDigit(s[4]) then
      var n := ((HexValue(s[1]) * 16 + HexValue(s[2])) * 16 + HexValue(s[3])) * 16 + HexValue(s[4]);
      if 0xD800 <= n < 0xE000 then None else Some((n as char, s[5..]))
    else None
  }

  /** Reads the rest of a string literal whose opening quote is already consumed; gives
      its value and what follows the closing quote. */
  function ParseString(s: string): (r: Option<(string, string)>)
    ensures r.Some? ==> |r.value.1| < |s|
    decreases |s|
  {
    if s == [] then None
    else if s[0] == '"' then Some(([], s[1..]))
    else if s[0] == '\\' then
      var e :- ParseEscape(s[1..]);
      var t :- ParseString(e.1);
      Some(([e.0] + t.0, t.1))
    else if (s[0] as int) < 0x20 then None
    else
      var t :- ParseString(s[1..]);
      Some(([s[0]] + t.0, t.1))
  }

  function ParseValue(s: string): (r: Option<(Value, string)>)
    ensures r.Some? ==> |r.value.1| < |s|
  {
    if 4 <= |s| && s[..4] == "null" then Some((Null, s[4..]))
    else if 1 <= |s| && s[0] == '"' then
      var t :- ParseString(s[1..]);
      Some((Str(t.0), t.1))
    else None
  }

  function ParseMember(s: string): (r: Option<(Member, string)>)
    ensures r.Some? ==> |r.value.1| < |s|
  {
    if 1 <= |s| && s[0] == '"' then
      var k :- ParseString(s[1..]);
      if 1 <= |k.1| && k.1[0] == ':' then
        var v :- ParseValue(k.1[1..]);
        Some(((k.0, v.0), v.1))
      else None
    else None
  }

  function ParseTail(s: string): Option<seq<Member>>
    decreases |s|
  {
    if s == "}" then Some([])
    else if 1 <= |s| && s[0] == ',' then
      var m :- ParseMember(s[1..]);
      var t :- ParseTail(m.1);
      Some([m.0] + t)
    else None
  }

  /** Reads a whole text that is one object; `None` where the text is not of that form. */
  function ParseObject(s: string): Option<seq<Member>> {
    if 1 <= |s| && s[0] == '{' then
      if s[1..] == "}" then Some([])
      else
        var m :- ParseMember(s[1..]);
        var t :- ParseTail(m.1);
        Some([m.0] + t)
    else None
  }

  /** The value of key `k` as `JSON.parse` leaves it: the last member with that key wins. */
  function Lookup(ms: seq<Member>, k: string): (r: Option<Value>)
    ensures r.Some? <==> exists i :: 0 <= i < |ms| && ms[i].0 == k
  {
    if ms == [] then None
    else if ms[|ms| - 1].0 == k then Some(ms[|ms| - 1].1)
    else Lookup(ms[..|ms| - 1], k)
  }

  // ---------------------------------------------------------------------------
  // Properties

  /** `r` with `c` put in front of the string it read. */
  function Prefixed(c: char, r: Option<(string, string)>): Option<(string, string)> {
    match r
    case Some(t) => Some(([c] + t.0, t.1))
    case None => None
  }

  lemma ParseStringEscape(s: string, c: char, after: string)
    requires 1 <= |s| && s[0] == '\\' && ParseEscape(s[1..]) == Some((c, after))
    ensures ParseString(s) == Prefixed(c, ParseString(after))
  {
  }

  lemma ParseStringPlain(s: string)
    requires 1 <= |s| && s[0] != '"' && s[0] != '\\' && 0x20 <= s[0] as int
    ensures ParseString(s) == Prefixed(s[0], ParseString(s[1..]))
  {
  }

  lemma ParseUnicodeEscape(e: string, n: int)
    requires 0 <= n < 0x20 && 5 <= |e|
    requires e[0] == 'u' && e[1] == '0' && e[2] == '0'
    requires e[3] == LowerHexDigit(n / 16) && e[4] == LowerHexDigit(n % 16)
    ensures ParseEscape(e) == Some((n as char, e[5..]))
  {
    assert HexValue(e[3]) == n / 16 && HexValue(e[4]) == n % 16;
  }

  lemma ParseShortEscape(e: string, n: int)
    requires 1 <= |e| && ShortEscape(n) == Some(e[0])
    ensures ParseEscape(e) == Some((n as char, e[1..]))
  {
  }

  /** The escape `JSON.stringify` writes for `c` reads back as `c`. */
  lemma ParseEscapedChar(c: char, rest: string)
    ensures ParseString(EscapeChar(c) + rest) == Prefixed(c, ParseString(rest))
  {
    var n := c as int;
    var s := EscapeChar(c) + rest;
    if c == '"' || c == '\\' {
      assert s[0] == '\\' && s[1..] == [c] + rest;
      ParseStringEscape(s, c, rest);
    } else if ShortEscape(n).Some? {
      assert s[0] == '\\' && s[1..] == [ShortEscape(n).value] + rest;
      ParseShortEscape(s[1..], n);
      ParseStringEscape(s, c, rest);
    } else if n < 0x20 {
      var e := s[1..];
      assert s[0] == '\\' && e == ['u', '0', '0', LowerHexDigit(n / 16), LowerHexDigit(n % 16)] + rest;
      ParseUnicodeEscape(e, n);
      assert e[5..] == rest;
      ParseStringEscape(s, c, rest);
    } else {
      assert s == [c] + rest;
      ParseStringPlain(s);
    }
  }

  /** Reading back a quoted string gives the original string and what follows it. */
  lemma {:induction false} ParseQuoted(x: string, rest: string)
    ensures ParseString(Escape(x) + ['"'] + rest) == Some((x, rest))
  {
    if x == [] {
      assert Escape(x) + ['"'] + rest == ['"'] + rest;
    } else {
      var e0, e := EscapeChar(x[0]), Escape(x[1..]);
      ParseQuoted(x[1..], rest);
      Regroup(e0, e, ['"']);
      Regroup(e0, e + ['"'], rest);
      ParseEscapedChar(x[0], e + ['"'] + rest);
      assert [x[0]] + x[1..] == x;
    }
  }

  lemma Regroup(a: string, b: string, c: string)
    ensures (a + b) + c == a + (b + c)
  {
  }

  lemma QuotedThen(e: string, rest: string)
    ensures (['"'] + (e + ['"'])) + rest == ['"'] + (e + ['"'] + rest)
  {
  }

  lemma ParseValueQuoted(x: string, v: string, rest: string)
    requires ParseString(x) == Some((v, rest))
    ensures ParseValue(['"'] + x) == Some((Str(v), rest))
  {
    assert (['"'] + x)[1..] == x;
  }

  lemma ParseValueText(v: Value, rest: string)
    ensures ParseValue(ValueText(v) + rest) == Some((v, rest))
  {
    var s := ValueText(v) + rest;
    match v
    case Null =>
      assert s[..4] == "null" && s[4..] == rest;
    case Str(x) =>
      QuotedThen(Escape(x), rest);
      ParseQuoted(x, rest);
      ParseValueQuoted(Escape(x) + ['"'] + rest, x, rest);
  }

  lemma ParseMemberOf(x: string, k: string, y: string, v: Value, rest: string)
    requires ParseString(x) == Some((k, [':'] + y)) && ParseValue(y) == Some((v, rest))
    ensures ParseMember(['"'] + x) == Some(((k, v), rest))
  {
    assert (['"'] + x)[1..] == x;
    assert ([':'] + y)[1..] == y;
  }

  lemma ParseMemberText(m: Member, rest: string)
    ensures ParseMember(MemberText(m) + rest) == Some((m, rest))
  {
    var y := ValueText(m.1) + rest;
    Regroup(Quote(m.0), [':'] + ValueText(m.1), rest);
    Regroup([':'], ValueText(m.1), rest);
    QuotedThen(Escape(m.0), [':'] + y);
    ParseQuoted(m.0, [':'] + y);
    ParseValueText(m.1, rest);
    ParseMemberOf(Escape(m.0) + ['"'] + ([':'] + y), m.0, y, m.1, rest);
  }

  lemma ParseTailOf(x: string, m: Member, after: string, t: seq<Member>)
    requires ParseMember(x) == Some((m, after)) && ParseTail(after) == Some(t)
    ensures ParseTail([','] + x) == Some([m] + t)
  {
    assert ([','] + x)[1..] == x;
  }

  lemma {:induction false} ParseTailText(ms: seq<Member>)
    ensures ParseTail(TailText(ms)) == Some(ms)
  {
    if ms != [] {
      var t := TailText(ms[1..]);
      ParseMemberText(ms[0], t);
      ParseTailText(ms[1..]);
      ParseTailOf(MemberText(ms[0]) + t, ms[0], t, ms[1..]);
      assert [ms[0]] + ms[1..] == ms;
    }
  }

  lemma ParseObjectOf(x: string, m: Member, after: string, t: seq<Member>)
    requires 1 <= |x| && x[0] == '"'
    requires ParseMember(x) == Some((m, after)) && ParseTail(after) == Some(t)
    ensures ParseObject(['{'] + x) == Some([m] + t)
  {
    assert (['{'] + x)[1..] == x;
    assert x != "}";
  }

  /** `JSON.parse(JSON.stringify(o))` gives back the members of `o`, in order. */
  lemma ParseObjectText(ms: seq<Member>)
    ensures ParseObject(ObjectText(ms)) == Some(ms)
  {
    var s := ObjectText(ms);
    if ms == [] {
      assert s[1..] == "}";
    } else {
      var t := TailText(ms[1..]);
      var x := MemberText(ms[0]) + t;
      assert x[0] == '"';
      ParseMemberText(ms[0], t);
      ParseTailText(ms[1..]);
      ParseObjectOf(x, ms[0], t, ms[1..]);
      assert [ms[0]] + ms[1..] == ms;
    }
  }

  /** A later member hides an earlier one with the same key. */
  lemma {:induction false} LookupAppend(a: seq<Member>, b: seq<Member>, k: string)
    ensures Lookup(a + b, k) == if Lookup(b, k).Some? then Lookup(b, k) else Lookup(a, k)
  {
    if b != [] {
      var ab := a + b;
      assert ab[|ab| - 1] == b[|b| - 1];
      assert ab[..|ab| - 1] == a + b[..|b| - 1];
      LookupAppend(a, b[..|b| - 1], k);
    } else {
      assert a + b == a;
    }
  }

  /** No quote, backslash or control character: `JSON.stringify` writes it unchanged. */
  predicate Plain(s: string) {
    forall i :: 0 <= i < |s| ==> s[i] != '"' && s[i] != '\\' && 0x20 <= s[i] as int
  }

  lemma {:induction false} EscapePlain(s: string)
    requires Plain(s)
    ensures Escape(s) == s
  {
    if s != [] {
      EscapePlain(s[1..]);
    }
  }

  lemma QuotePlain(s: string)
    requires Plain(s)
    ensures Quote(s) == ['"'] + s + ['"']
  {
    EscapePlain(s);
  }

  lemma MemberTextPlain(k: string, v: string)
    requires Plain(k) && Plain(v)
    ensures MemberText((k, Str(v))) == ['"'] + k + ['"', ':', '"'] + v + ['"']
  {
    QuotePlain(k);
    QuotePlain(v);
  }

  /** The text of a one-member object whose key and value need no escaping. */
  lemma SingleMemberText(k: string, v: string)
    requires Plain(k) && Plain(v)
    ensures ObjectText([(k, Str(v))]) == "{\"" + k + "\":\"" + v + "\"}"
  {
    MemberTextPlain(k, v);
    assert ObjectText([(k, Str(v))]) == ['{'] + MemberText((k, Str(v))) + ['}'];
    assert "{\"" == ['{', '"'];
    assert "\":\"" == ['"', ':', '"'];
    assert "\"}" == ['"', '}'];
  }
}
