/** `encodeURIComponent` and `decodeURIComponent` (ECMA-262, section 19.2.6
    "URI Handling Functions"), over strings of Unicode scalar values.

    Every character outside the unescaped set is written as the UTF-8 bytes of
    its code point (RFC 3629), each byte as `%` and two upper-case hexadecimal
    digits. The decoder accepts either case of hexadecimal digit, rejects a
    malformed escape, a stray continuation byte, an overlong form, a surrogate
    and a code point above U+10FFFF (where JavaScript throws `URIError`). */
module UriComponent {
  import opened Wrappers
  import opened HexDigits

  type Byte = b: int | 0 <= b < 256

  /** The characters `encodeURIComponent` leaves as they are:
      letters, digits and `-_.!~*'()`. */
  predicate Unreserved(c: char) {
    || ('A' <= c <= 'Z')
    || ('a' <= c <= 'z')
    || ('0' <= c <= '9')
    || c in "-_.!~*'()"
  }

  /** The UTF-8 encoding of one code point (RFC 3629, section 3). */
  function Utf8(c: char): (bs: seq<Byte>)
    ensures 1 <= |bs| <= 4
    ensures |bs| == 1 <==> c as int < 0x80
  {
    var n := c as int;
    if n < 0x80 then [n]
    else if n < 0x800 then [0xC0 + n / 0x40, 0x80 + n % 0x40]
    else if n < 0x1_0000 then [0xE0 + n / 0x1000, 0x80 + (n / 0x40) % 0x40, 0x80 + n % 0x40]
    else [0xF0 + n / 0x4_0000, 0x80 + (n / 0x1000) % 0x40, 0x80 + (n / 0x40) % 0x40, 0x80 + n % 0x40]
  }

  /** Each byte as `%XY`. */
  function PercentBytes(bs: seq<Byte>): (s: string)
    ensures |s| == 3 * |bs|
  {
    if bs == [] then []
    else ['%', UpperHexDigit(bs[0] / 16), UpperHexDigit(bs[0] % 16)] + PercentBytes(bs[1..])
  }

  function EncodeChar(c: char): string {
    if Unreserved(c) then [c] else PercentBytes(Utf8(c))
  }

  /** `encodeURIComponent(s)`. */
  function Encode(s: string): string {
    if s == [] then [] else EncodeChar(s[0]) + Encode(s[1..])
  }

  /** The characters `Encode` can produce: unescaped ones, `%` and hexadecimal digits. */
  predicate EncodedChar(c: char) {
    Unreserved(c) || c == '%' || IsHexDigit(c)
  }

  /** The byte written as `%XY` at index `i` of `s`, if there is one. */
  function PercentByteAt(s: string, i: nat): (b: Option<Byte>)
  {
    if i + 3 <= |s| && s[i] == '%' && IsHexDigit(s[i + 1]) && IsHexDigit(s[i + 2])
    then Some(HexValue(s[i + 1]) * 16 + HexValue(s[i + 2]))
    else None
  }

  /** The low six bits of the continuation byte written at index `3 * k`. */
  function ContinuationAt(s: string, k: nat): Option<int>
  {
    match PercentByteAt(s, 3 * k)
    case Some(b) => if 0x80 <= b < 0xC0 then Some(b - 0x80) else None
    case None => None
  }

  /** The length of the UTF-8 sequence a leading byte announces; 0 for a byte that
      cannot lead one. */
  function SequenceLength(b0: Byte): (n: nat)
    ensures n <= 4
  {
    if b0 < 0x80 then 1
    else if 0xC0 <= b0 < 0xE0 then 2
    else if 0xE0 <= b0 < 0xF0 then 3
    else if 0xF0 <= b0 < 0xF8 then 4
    else 0
  }

  /** The code point bits a leading byte carries. */
  function LeadBits(b0: Byte, n: nat): int
    requires 1 <= n <= 4
  {
    if n == 1 then b0 else if n == 2 then b0 - 0xC0 else if n == 3 then b0 - 0xE0 else b0 - 0xF0
  }

  /** The code points a sequence of `n` bytes may encode (RFC 3629 forbids overlong forms). */
  predicate InRange(cp: int, n: nat) {
    if n == 1 then 0 <= cp < 0x80
    else if n == 2 then 0x80 <= cp < 0x800
    else if n == 3 then 0x800 <= cp < 0x1_0000 && !(0xD800 <= cp < 0xE000)
    else 0x1_0000 <= cp < 0x11_0000
  }

  /** Shifts the continuation bytes `k .. n - 1` into `acc`, six bits each. */
  function Continue(s: string, acc: int, k: nat, n: nat): Option<int>
    decreases n - k
  {
    if n <= k then Some(acc)
    else
      var c :- ContinuationAt(s, k);
      Continue(s, acc * 0x40 + c, k + 1, n)
  }

  /** Decodes one escaped UTF-8 sequence at the start of `s`; gives the character and
      the number of characters of `s` it spans. */
  function DecodeSequence(s: string): (r: Option<(char, nat)>)
    ensures r.Some? ==> 3 <= r.value.1 <= |s|
  {
    var b0 :- PercentByteAt(s, 0);
    var n := SequenceLength(b0);
    if n == 0 then None
    else
      var cp :- Continue(s, LeadBits(b0, n), 1, n);
      if InRange(cp, n) && 3 * n <= |s| then Some((cp as char, 3 * n)) else None
  }

  /** `decodeURIComponent(s)`; `None` where JavaScript throws `URIError`. */
  function Decode(s: string): Option<string>
    decreases |s|
  {
    if s == [] then Some([])
    else if s[0] != '%' then
      var t :- Decode(s[1..]);
      Some([s[0]] + t)
    else
      var d :- DecodeSequence(s);
      var t :- Decode(s[d.1..]);
      Some([d.0] + t)
  }

  // ---------------------------------------------------------------------------
  // Properties

  lemma PercentByteAtDigits(s: string, i: nat, b: Byte)
    requires i + 3 <= |s| && s[i] == '%'
    requires s[i + 1] == UpperHexDigit(b / 16) && s[i + 2] == UpperHexDigit(b % 16)
    ensures PercentByteAt(s, i) == Some(b)
  {
  }

  lemma {:induction false} PercentBytesIndex(bs: seq<Byte>, k: nat)
    requires k < |bs|
    ensures PercentBytes(bs)[3 * k] == '%'
    ensures PercentBytes(bs)[3 * k + 1] == UpperHexDigit(bs[k] / 16)
    ensures PercentBytes(bs)[3 * k + 2] == UpperHexDigit(bs[k] % 16)
  {
    if k > 0 {
      var tail := PercentBytes(bs[1..]);
      PercentBytesIndex(bs[1..], k - 1);
      assert bs[1..][k - 1] == bs[k];
      var j := 3 * (k - 1);
      assert 3 * k == 3 + j;
      assert PercentBytes(bs)[3..] == tail;
      assert PercentBytes(bs)[3 + j] == tail[j] && PercentBytes(bs)[3 + j + 1] == tail[j + 1]
             && PercentBytes(bs)[3 + j + 2] == tail[j + 2];
    }
  }

  /** The byte written at position `k` of an escaped byte string is read back. */
  lemma PercentBytesAt(bs: seq<Byte>, rest: string, k: nat)
    requires k < |bs|
    ensures PercentByteAt(PercentBytes(bs) + rest, 3 * k) == Some(bs[k])
  {
    var p := PercentBytes(bs);
    var i := 3 * k;
    PercentBytesIndex(bs, k);
    assert i + 3 <= |p|;
    var s := p + rest;
    assert s[i] == p[i] && s[i + 1] == p[i + 1] && s[i + 2] == p[i + 2];
    PercentByteAtDigits(s, i, bs[k]);
  }

  lemma ContinuationFrom(s: string, k: nat, b: Byte)
    requires PercentByteAt(s, 3 * k) == Some(b) && 0x80 <= b < 0xC0
    ensures ContinuationAt(s, k) == Some(b - 0x80)
  {
  }

  lemma ContinuationOf(bs: seq<Byte>, rest: string, k: nat)
    requires 0 < k < |bs| && 0x80 <= bs[k] < 0xC0
    ensures ContinuationAt(PercentBytes(bs) + rest, k) == Some(bs[k] - 0x80)
  {
    PercentBytesAt(bs, rest, k);
    ContinuationFrom(PercentBytes(bs) + rest, k, bs[k]);
  }

  lemma SplitSixBits(n: nat)
    ensures n == (n / 0x40) * 0x40 + n % 0x40
    ensures n / 0x1000 == (n / 0x40) / 0x40
    ensures n / 0x4_0000 == (n / 0x1000) / 0x40
  {
  }

  /** The two-byte form, with the code point's bits named. */
  lemma Utf8TwoBytes(c: char) returns (q0: int, q1: int)
    requires 0x80 <= c as int < 0x800
    ensures Utf8(c) == [0xC0 + q0, 0x80 + q1]
    ensures 0 <= q0 < 0x20 && 0 <= q1 < 0x40
    ensures q0 * 0x40 + q1 == c as int
  {
    var n := c as int;
    q0, q1 := n / 0x40, n % 0x40;
  }

  /** A well-formed two-byte sequence, in terms of the bytes read from `s`. */
  lemma DecodeTwoByteSequence(s: string, q0: int, q1: int)
    requires 6 <= |s| && 0 <= q0 < 0x20
    requires PercentByteAt(s, 0) == Some(0xC0 + q0) && ContinuationAt(s, 1) == Some(q1)
    requires 0x80 <= q0 * 0x40 + q1 < 0x800
    ensures DecodeSequence(s) == Some(((q0 * 0x40 + q1) as char, 6))
  {
    ContinueStep(s, q0, 1, 2, q1);
  }

  lemma DecodeTwoBytesOf(bs: seq<Byte>, rest: string, q0: int, q1: int)
    requires |bs| == 2 && bs[0] == 0xC0 + q0 && bs[1] == 0x80 + q1
    requires 0 <= q0 < 0x20 && 0 <= q1 < 0x40 && 0x80 <= q0 * 0x40 + q1
    ensures DecodeSequence(PercentBytes(bs) + rest) == Some(((q0 * 0x40 + q1) as char, 6))
  {
    PercentBytesAt(bs, rest, 0);
    ContinuationOf(bs, rest, 1);
    DecodeTwoByteSequence(PercentBytes(bs) + rest, q0, q1);
  }

  lemma DecodeTwoBytes(c: char, rest: string)
    requires 0x80 <= c as int < 0x800
    ensures DecodeSequence(PercentBytes(Utf8(c)) + rest) == Some((c, 6))
  {
    var q0, q1 := Utf8TwoBytes(c);
    DecodeTwoBytesOf(Utf8(c), rest, q0, q1);
  }

  /** The three-byte form, with the code point's bits named. */
  lemma Utf8ThreeBytes(c: char) returns (q0: int, q1: int, q2: int)
    requires 0x800 <= c as int < 0x1_0000
    ensures Utf8(c) == [0xE0 + q0, 0x80 + q1, 0x80 + q2]
    ensures 0 <= q0 < 0x10 && 0 <= q1 < 0x40 && 0 <= q2 < 0x40
    ensures (q0 * 0x40 + q1) * 0x40 + q2 == c as int
  {
    var n := c as int;
    q0, q1, q2 := n / 0x1000, (n / 0x40) % 0x40, n % 0x40;
    SplitSixBits(n);
    SplitSixBits(n / 0x40);
  }

  /** A well-formed three-byte sequence, in terms of the bytes read from `s`. */
  lemma DecodeThreeByteSequence(s: string, q0: int, q1: int, q2: int)
    requires 9 <= |s| && 0 <= q0 < 0x10
    requires PercentByteAt(s, 0) == Some(0xE0 + q0)
    requires ContinuationAt(s, 1) == Some(q1) && ContinuationAt(s, 2) == Some(q2)
    requires InRange((q0 * 0x40 + q1) * 0x40 + q2, 3)
    ensures DecodeSequence(s) == Some((((q0 * 0x40 + q1) * 0x40 + q2) as char, 9))
  {
    ContinueStep(s, q0, 1, 3, q1);
    ContinueStep(s, q0 * 0x40 + q1, 2, 3, q2);
  }

  lemma DecodeThreeBytesOf(bs: seq<Byte>, rest: string, q0: int, q1: int, q2: int)
    requires |bs| == 3 && bs[0] == 0xE0 + q0 && bs[1] == 0x80 + q1 && bs[2] == 0x80 + q2
    requires 0 <= q0 < 0x10 && 0 <= q1 < 0x40 && 0 <= q2 < 0x40
    requires InRange((q0 * 0x40 + q1) * 0x40 + q2, 3)
    ensures DecodeSequence(PercentBytes(bs) + rest) == Some((((q0 * 0x40 + q1) * 0x40 + q2) as char, 9))
  {
    PercentBytesAt(bs, rest, 0);
    ContinuationOf(bs, rest, 1);
    ContinuationOf(bs, rest, 2);
    DecodeThreeByteSequence(PercentBytes(bs) + rest, q0, q1, q2);
  }

  lemma DecodeThreeBytes(c: char, rest: string)
    requires 0x800 <= c as int < 0x1_0000
    ensures DecodeSequence(PercentBytes(Utf8(c)) + rest) == Some((c, 9))
  {
    var q0, q1, q2 := Utf8ThreeBytes(c);
    DecodeThreeBytesOf(Utf8(c), rest, q0, q1, q2);
  }

  /** The four-byte form, with the code point's bits named. */
  lemma Utf8FourBytes(c: char) returns (q0: int, q1: int, q2: int, q3: int)
    requires 0x1_0000 <= c as int
    ensures Utf8(c) == [0xF0 + q0, 0x80 + q1, 0x80 + q2, 0x80 + q3]
    ensures 0 <= q0 < 0x08 && 0 <= q1 < 0x40 && 0 <= q2 < 0x40 && 0 <= q3 < 0x40
    ensures ((q0 * 0x40 + q1) * 0x40 + q2) * 0x40 + q3 == c as int
  {
    var n := c as int;
    q0, q1, q2, q3 := n / 0x4_0000, (n / 0x1000) % 0x40, (n / 0x40) % 0x40, n % 0x40;
    SplitSixBits(n);
    SplitSixBits(n / 0x40);
    SplitSixBits(n / 0x1000);
  }

  lemma ContinueStep(s: string, acc: int, k: nat, n: nat, c: int)
    requires k < n && ContinuationAt(s, k) == Some(c)
    ensures Continue(s, acc, k, n) == Continue(s, acc * 0x40 + c, k + 1, n)
  {
  }

  /** A well-formed four-byte sequence, in terms of the bytes read from `s`. */
  lemma DecodeFourByteSequence(s: string, q0: int, q1: int, q2: int, q3: int)
    requires 12 <= |s|
    requires 0 <= q0 < 0x08
    requires PercentByteAt(s, 0) == Some(0xF0 + q0)
    requires ContinuationAt(s, 1) == Some(q1) && ContinuationAt(s, 2) == Some(q2) && ContinuationAt(s, 3) == Some(q3)
    requires 0x1_0000 <= ((q0 * 0x40 + q1) * 0x40 + q2) * 0x40 + q3 < 0x11_0000
    ensures var cp := ((q0 * 0x40 + q1) * 0x40 + q2) * 0x40 + q3;
            DecodeSequence(s) == Some((cp as char, 12))
  {
    var a1 := q0 * 0x40 + q1;
    var a2 := a1 * 0x40 + q2;
    ContinueStep(s, q0, 1, 4, q1);
    ContinueStep(s, a1, 2, 4, q2);
    ContinueStep(s, a2, 3, 4, q3);
  }

  lemma DecodeFourBytesOf(bs: seq<Byte>, rest: string, q0: int, q1: int, q2: int, q3: int)
    requires |bs| == 4 && bs[0] == 0xF0 + q0 && bs[1] == 0x80 + q1 && bs[2] == 0x80 + q2 && bs[3] == 0x80 + q3
    requires 0 <= q0 < 0x08 && 0 <= q1 < 0x40 && 0 <= q2 < 0x40 && 0 <= q3 < 0x40
    requires 0x1_0000 <= ((q0 * 0x40 + q1) * 0x40 + q2) * 0x40 + q3 < 0x11_0000
    ensures var cp := ((q0 * 0x40 + q1) * 0x40 + q2) * 0x40 + q3;
            DecodeSequence(PercentBytes(bs) + rest) == Some((cp as char, 12))
  {
    PercentBytesAt(bs, rest, 0);
    ContinuationOf(bs, rest, 1);
    ContinuationOf(bs, rest, 2);
    ContinuationOf(bs, rest, 3);
    PercentBytesIndex(bs, 3);
    DecodeFourByteSequence(PercentBytes(bs) + rest, q0, q1, q2, q3);
  }

  lemma DecodeFourBytes(c: char, rest: string)
    requires 0x1_0000 <= c as int
    ensures DecodeSequence(PercentBytes(Utf8(c)) + rest) == Some((c, 12))
  {
    var q0, q1, q2, q3 := Utf8FourBytes(c);
    DecodeFourBytesOf(Utf8(c), rest, q0, q1, q2, q3);
  }

  /** The escaped UTF-8 form of a character decodes back to that character. */
  lemma DecodeSequenceOfUtf8(c: char, rest: string)
    ensures DecodeSequence(PercentBytes(Utf8(c)) + rest) == Some((c, 3 * |Utf8(c)|))
  {
    var n := c as int;
    if n < 0x80 {
      PercentBytesAt(Utf8(c), rest, 0);
    } else if n < 0x800 {
      DecodeTwoBytes(c, rest);
    } else if n < 0x1_0000 {
      DecodeThreeBytes(c, rest);
    } else {
      DecodeFourBytes(c, rest);
    }
  }

  /** `r` with `c` put in front of the string it holds. */
  function Prefixed(c: char, r: Option<string>): Option<string> {
    match r
    case Some(u) => Some([c] + u)
    case None => None
  }

  lemma DecodeEncodeChar(c: char, t: string)
    ensures Decode(EncodeChar(c) + t) == Prefixed(c, Decode(t))
  {
    var s := EncodeChar(c) + t;
    if Unreserved(c) {
      assert s[0] == c && s[1..] == t;
    } else {
      DecodeSequenceOfUtf8(c, t);
      assert s[0] == '%';
      assert s[3 * |Utf8(c)|..] == t;
    }
  }

  /** Decoding undoes encoding: `decodeURIComponent(encodeURIComponent(s)) === s`. */
  lemma {:induction false} DecodeEncode(s: string)
    ensures Decode(Encode(s)) == Some(s)
  {
    if s != [] {
      var e := Encode(s[1..]);
      assert Encode(s) == EncodeChar(s[0]) + e;
      DecodeEncode(s[1..]);
      DecodeEncodeChar(s[0], e);
      assert [s[0]] + s[1..] == s;
    }
  }

  lemma {:induction false} PercentBytesChars(bs: seq<Byte>)
    ensures forall i :: 0 <= i < |PercentBytes(bs)| ==> EncodedChar(PercentBytes(bs)[i])
  {
    if bs != [] {
      PercentBytesChars(bs[1..]);
    }
  }

  /** The encoded form only holds unescaped characters, `%` and hexadecimal digits, so it
      never holds a separator such as `&`, `=`, `#`, `?`, `/`, `"` or a space. */
  lemma {:induction false} EncodeChars(s: string)
    ensures forall i :: 0 <= i < |Encode(s)| ==> EncodedChar(Encode(s)[i])
  {
    if s != [] {
      EncodeChars(s[1..]);
      PercentBytesChars(Utf8(s[0]));
    }
  }

  /** Encoding distributes over concatenation. */
  lemma {:induction false} EncodeAppend(a: string, b: string)
    ensures Encode(a + b) == Encode(a) + Encode(b)
  {
    if a != [] {
      assert (a + b)[1..] == a[1..] + b;
      EncodeAppend(a[1..], b);
    } else {
      assert a + b == b;
    }
  }

  /** A string of unescaped characters is its own encoding. */
  lemma {:induction false} EncodeUnreserved(s: string)
    requires forall i :: 0 <= i < |s| ==> Unreserved(s[i])
    ensures Encode(s) == s
  {
    if s != [] {
      EncodeUnreserved(s[1..]);
    }
  }

  /** The path separator is escaped, with upper-case hexadecimal digits. */
  lemma SlashEncoded()
    ensures EncodeChar('/') == "%2F"
  {
  }

  /** A non-ASCII character is escaped byte by byte from its UTF-8 form. */
  lemma NonAsciiEncoded()
    ensures EncodeChar('á') == "%C3%A1"
  {
  }

  /** No character that separates or ends a query parameter survives encoding. */
  lemma NoSeparators(s: string)
    ensures forall i :: 0 <= i < |Encode(s)| ==> Encode(s)[i] !in "&=#? "
  {
    EncodeChars(s);
  }

  /** A path segment of unescaped characters after a slash encodes as `%2F` then the
      segment itself. */
  lemma EncodeSegment(segment: string)
    requires forall i :: 0 <= i < |segment| ==> Unreserved(segment[i])
    ensures Encode("/" + segment) == "%2F" + segment
  {
    EncodeAppend("/", segment);
    EncodeUnreserved(segment);
    SlashEncoded();
    assert Encode("/") == EncodeChar('/') + Encode([]);
  }
}
