/** `url.QueryEscape`, the escaping `url.Values.Encode` applies to every key
    and value, and the unescaping that undoes it. Go escapes the UTF-8 bytes
    of a string; here a string is a sequence of Unicode scalar values, so a
    character outside ASCII is escaped as its UTF-8 bytes. */
module QueryEscape {
  import opened Wrappers
  import opened ByteStrings

  /** The characters `url.QueryEscape` leaves as they are (the unreserved
      characters of section 2.3 of RFC 3986). */
  predicate Unreserved(c: char) {
    ('a' <= c <= 'z') || ('A' <= c <= 'Z') || ('0' <= c <= '9') || c == '-' || c == '_' || c == '.' || c == '~'
  }

  /** The characters an escaped string is made of. */
  predicate EscapedChar(c: char) {
    Unreserved(c) || c == '+' || c == '%'
  }

  /** The UTF-8 encoding of one character (section 3 of RFC 3629). */
  function Utf8(c: char): (bs: Bytes)
    ensures 1 <= |bs| <= 4
  {
    var n := c as int;
    if n < 0x80 then [n]
    else if n < 0x800 then [0xC0 + n / 64, 0x80 + n % 64]
    else if n < 0x10000 then [0xE0 + n / 4096, 0x80 + (n / 64) % 64, 0x80 + n % 64]
    else [0xF0 + n / 262144, 0x80 + (n / 4096) % 64, 0x80 + (n / 64) % 64, 0x80 + n % 64]
  }

  /** Upper-case hexadecimal digit, as Go writes it. */
  function HexChar(d: nat): (c: char)
    requires d < 16
    ensures Unreserved(c)
  {
    "0123456789ABCDEF"[d]
  }

  /** Value of a hexadecimal digit of either case, as Go reads it. */
  function HexValue(c: char): Option<nat> {
    if '0' <= c <= '9' then Some(c as int - '0' as int)
    else if 'A' <= c <= 'F' then Some(c as int - 'A' as int + 10)
    else if 'a' <= c <= 'f' then Some(c as int - 'a' as int + 10)
    else None
  }

  lemma HexRoundTrip(d: nat)
    requires d < 16
    ensures HexValue(HexChar(d)) == Some(d)
  {
  }

  /** The three characters Go writes for one escaped byte. */
  function PercentByte(b: Byte): (e: string)
    ensures |e| == 3 && e[0] == '%'
    ensures HexPair(e[1], e[2]) == Some(b)
    ensures forall j | 0 <= j < 3 :: EscapedChar(e[j])
  {
    HexRoundTrip(b / 16);
    HexRoundTrip(b % 16);
    ['%', HexChar(b / 16), HexChar(b % 16)]
  }

  /** Each byte as `%` and two hexadecimal digits. */
  function Percent(bs: Bytes): (s: string)
    ensures |s| == 3 * |bs|
  {
    seq(3 * |bs|, i requires 0 <= i < 3 * |bs| => PercentByte(bs[i / 3])[i % 3])
  }

  /** How `url.QueryEscape` writes one character: unreserved characters as
      they are, a space as `+`, anything else as its percent-escaped UTF-8
      bytes. */
  function EscapeChar(c: char): (e: string)
    ensures |e| > 0
    ensures forall i | 0 <= i < |e| :: EscapedChar(e[i])
  {
    if Unreserved(c) then [c]
    else if c == ' ' then "+"
    else Percent(Utf8(c))
  }

  /** `url.QueryEscape`. Its result never holds the `&` and `=` that
      `url.Values.Encode` uses to delimit pairs. */
  function Escape(s: string): (e: string)
    ensures forall i | 0 <= i < |e| :: EscapedChar(e[i])
  {
    if |s| == 0 then ""
    else EscapeChar(s[0]) + Escape(s[1..])
  }

  /** The byte two hexadecimal digits denote, if they are digits. */
  function HexPair(hi: char, lo: char): Option<Byte> {
    match (HexValue(hi), HexValue(lo))
    case (Some(h), Some(l)) => if h < 16 && l < 16 then Some(16 * h + l) else None
    case _ => None
  }

  /** The byte written as `%XY` at index `i`, if there is one. */
  function ByteAt(s: string, i: nat): Option<Byte> {
    if i + 2 < |s| && s[i] == '%' then HexPair(s[i + 1], s[i + 2]) else None
  }

  predicate Continuation(b: Byte) {
    0x80 <= b < 0xC0
  }

  /** A code point that is a Unicode scalar value, i.e. a Dafny `char`. */
  predicate Scalar(n: int) {
    (0 <= n < 0xD800) || (0xE000 <= n < 0x11_0000)
  }

  /** Reads one character from the front of an escaped string, with the
      number of characters it took; `None` for malformed input. */
  function DecodeOne(s: string): (r: Option<(char, nat)>)
    requires |s| > 0
    ensures r.Some? ==> 0 < r.value.1 <= |s|
  {
    if s[0] == '+' then Some((' ', 1))
    else if s[0] != '%' then Some((s[0], 1))
    else
      match ByteAt(s, 0)
      case None => None
      case Some(b0) =>
        if b0 < 0x80 then Some((b0 as char, 3))
        else if b0 < 0xC0 then None
        else if b0 < 0xE0 then
          match ByteAt(s, 3)
          case Some(b1) =>
            var n := (b0 as int - 0xC0) * 64 + (b1 as int - 0x80);
            if Continuation(b1) && Scalar(n) then Some((n as char, 6)) else None
          case None => None
        else if b0 < 0xF0 then
          match (ByteAt(s, 3), ByteAt(s, 6))
          case (Some(b1), Some(b2)) =>
            var n := (b0 as int - 0xE0) * 4096 + (b1 as int - 0x80) * 64 + (b2 as int - 0x80);
            if Continuation(b1) && Continuation(b2) && Scalar(n) then Some((n as char, 9)) else None
          case _ => None
        else
          match (ByteAt(s, 3), ByteAt(s, 6), ByteAt(s, 9))
          case (Some(b1), Some(b2), Some(b3)) =>
            var n := (b0 as int - 0xF0) * 262144 + (b1 as int - 0x80) * 4096 + (b2 as int - 0x80) * 64 + (b3 as int - 0x80);
            if Continuation(b1) && Continuation(b2) && Continuation(b3) && Scalar(n) then Some((n as char, 12)) else None
          case _ => None
  }

  /** The inverse of `Escape`: `+` is a space and `%XY` sequences are UTF-8
      bytes; `None` for malformed input. */
  function Unescape(s: string): Option<string>
    decreases |s|
  {
    if |s| == 0 then Some("")
    else
      match DecodeOne(s)
      case None => None
      case Some((c, n)) =>
        match Unescape(s[n..])
        case None => None
        case Some(t) => Some([c] + t)
  }

  /** The `k`-th escaped byte is read back at offset `3 * k`. */
  lemma PercentAt(bs: Bytes, rest: string, k: nat)
    requires k < |bs|
    ensures ByteAt(Percent(bs) + rest, 3 * k) == Some(bs[k])
  {
    PercentIndex(bs, rest, k, 0);
    PercentIndex(bs, rest, k, 1);
    PercentIndex(bs, rest, k, 2);
  }

  /** Character `j` of the `k`-th escaped byte. */
  lemma PercentIndex(bs: Bytes, rest: string, k: nat, j: nat)
    requires k < |bs| && j < 3
    ensures (Percent(bs) + rest)[3 * k + j] == PercentByte(bs[k])[j]
  {
    Thirds(k, j);
  }

  /** Where the characters of the `k`-th escaped byte lie. */
  lemma Thirds(k: nat, j: nat)
    requires j < 3
    ensures (3 * k + j) / 3 == k && (3 * k + j) % 3 == j
  {
  }

  /** The two bytes of a character in `0x80 .. 0x7FF`. */
  lemma Utf8Two(c: char)
    requires 0x80 <= c as int < 0x800
    ensures var bs := Utf8(c);
      |bs| == 2 && 0xC0 <= bs[0] < 0xE0 && Continuation(bs[1])
      && (bs[0] as int - 0xC0) * 64 + (bs[1] as int - 0x80) == c as int
  {
  }

  /** The three bytes of a character in `0x800 .. 0xFFFF`. */
  lemma Utf8Three(c: char)
    requires 0x800 <= c as int < 0x10000
    ensures var bs := Utf8(c);
      |bs| == 3 && 0xE0 <= bs[0] < 0xF0 && Continuation(bs[1]) && Continuation(bs[2])
      && (bs[0] as int - 0xE0) * 4096 + (bs[1] as int - 0x80) * 64 + (bs[2] as int - 0x80) == c as int
  {
    var n := c as int;
    var q := n / 64;
    assert n == 64 * q + n % 64;
    assert q == 64 * (q / 64) + q % 64;
    assert q / 64 == n / 4096;
  }

  /** The four bytes of a character from `0x10000` on. */
  lemma Utf8Four(c: char)
    requires 0x10000 <= c as int
    ensures var bs := Utf8(c);
      |bs| == 4 && 0xF0 <= bs[0] && Continuation(bs[1]) && Continuation(bs[2]) && Continuation(bs[3])
      && (bs[0] as int - 0xF0) * 262144 + (bs[1] as int - 0x80) * 4096 + (bs[2] as int - 0x80) * 64 + (bs[3] as int - 0x80) == c as int
  {
    var n := c as int;
    var q := n / 64;
    var r := q / 64;
    assert n == 64 * q + n % 64;
    assert q == 64 * r + q % 64;
    assert r == 64 * (r / 64) + r % 64;
    assert r == n / 4096;
    assert r / 64 == n / 262144;
  }

  lemma DecodeOneByte(c: char, rest: string)
    requires !Unreserved(c) && c != ' ' && c as int < 0x80
    ensures DecodeOne(Percent(Utf8(c)) + rest) == Some((c, 3 * |Utf8(c)|))
  {
    var bs := Utf8(c);
    PercentAt(bs, rest, 0);
  }

  /** Two escaped bytes of a sequence read back as one character. */
  lemma DecodeTwo(s: string, b0: Byte, b1: Byte, n: int)
    requires |s| > 0 && ByteAt(s, 0) == Some(b0) && ByteAt(s, 3) == Some(b1)
    requires 0xC0 <= b0 < 0xE0 && Continuation(b1) && Scalar(n)
    requires n == (b0 as int - 0xC0) * 64 + (b1 as int - 0x80)
    ensures DecodeOne(s) == Some((n as char, 6))
  {
  }

  /** Three escaped bytes of a sequence read back as one character. */
  lemma DecodeThree(s: string, b0: Byte, b1: Byte, b2: Byte, n: int)
    requires |s| > 0 && ByteAt(s, 0) == Some(b0) && ByteAt(s, 3) == Some(b1) && ByteAt(s, 6) == Some(b2)
    requires 0xE0 <= b0 < 0xF0 && Continuation(b1) && Continuation(b2) && Scalar(n)
    requires n == (b0 as int - 0xE0) * 4096 + (b1 as int - 0x80) * 64 + (b2 as int - 0x80)
    ensures DecodeOne(s) == Some((n as char, 9))
  {
  }

  /** Four escaped bytes of a sequence read back as one character. */
  lemma DecodeFour(s: string, b0: Byte, b1: Byte, b2: Byte, b3: Byte, n: int)
    requires |s| > 0 && ByteAt(s, 0) == Some(b0) && ByteAt(s, 3) == Some(b1)
    requires ByteAt(s, 6) == Some(b2) && ByteAt(s, 9) == Some(b3)
    requires 0xF0 <= b0 && Continuation(b1) && Continuation(b2) && Continuation(b3) && Scalar(n)
    requires n == (b0 as int - 0xF0) * 262144 + (b1 as int - 0x80) * 4096 + (b2 as int - 0x80) * 64 + (b3 as int - 0x80)
    ensures DecodeOne(s) == Some((n as char, 12))
  {
  }

  /** The escaped UTF-8 bytes of a character in `0x80 .. 0x7FF`. */
  lemma DecodeTwoBytes(c: char, rest: string)
    requires 0x80 <= c as int < 0x800
    ensures DecodeOne(Percent(Utf8(c)) + rest) == Some((c, 6))
  {
    var bs := Utf8(c);
    Utf8Two(c);
    PercentAt(bs, rest, 0);
    PercentAt(bs, rest, 1);
    DecodeTwo(Percent(bs) + rest, bs[0], bs[1], c as int);
  }

  /** The escaped UTF-8 bytes of a character in `0x800 .. 0xFFFF`. */
  lemma DecodeThreeBytes(c: char, rest: string)
    requires 0x800 <= c as int < 0x10000
    ensures DecodeOne(Percent(Utf8(c)) + rest) == Some((c, 9))
  {
    var bs := Utf8(c);
    Utf8Three(c);
    PercentAt(bs, rest, 0);
    PercentAt(bs, rest, 1);
    PercentAt(bs, rest, 2);
    DecodeThree(Percent(bs) + rest, bs[0], bs[1], bs[2], c as int);
  }

  /** The escaped UTF-8 bytes of a character from `0x10000` on. */
  lemma DecodeFourBytes(c: char, rest: string)
    requires 0x10000 <= c as int
    ensures DecodeOne(Percent(Utf8(c)) + rest) == Some((c, 12))
  {
    var bs := Utf8(c);
    Utf8Four(c);
    PercentAt(bs, rest, 0);
    PercentAt(bs, rest, 1);
    PercentAt(bs, rest, 2);
    PercentAt(bs, rest, 3);
    DecodeFour(Percent(bs) + rest, bs[0], bs[1], bs[2], bs[3], c as int);
  }

  /** The escape of one character is read back as that character. */
  lemma DecodeEscapeChar(c: char, rest: string)
    ensures DecodeOne(EscapeChar(c) + rest) == Some((c, |EscapeChar(c)|))
  {
    if !Unreserved(c) && c != ' ' {
      DecodePercent(c, rest);
    }
  }

  /** The percent-escaped UTF-8 bytes of a character are read back as it. */
  lemma DecodePercent(c: char, rest: string)
    requires !Unreserved(c) && c != ' '
    ensures DecodeOne(Percent(Utf8(c)) + rest) == Some((c, 3 * |Utf8(c)|))
  {
    var n := c as int;
    if n < 0x80 {
      DecodeOneByte(c, rest);
    } else if n < 0x800 {
      DecodeTwoBytes(c, rest);
    } else if n < 0x10000 {
      DecodeThreeBytes(c, rest);
    } else {
      DecodeFourBytes(c, rest);
    }
  }

  /** Unescaping undoes `url.QueryEscape`. */
  lemma {:induction false} UnescapeEscape(s: string)
    ensures Unescape(Escape(s)) == Some(s)
    decreases |s|
  {
    if |s| > 0 {
      var e := EscapeChar(s[0]);
      var rest := Escape(s[1..]);
      DecodeEscapeChar(s[0], rest);
      assert Escape(s) == e + rest;
      assert (e + rest)[|e|..] == rest;
      UnescapeEscape(s[1..]);
      assert [s[0]] + s[1..] == s;
    }
  }

  /** `url.QueryEscape` is injective: distinct strings escape differently. */
  lemma EscapeInjective(s: string, t: string)
    requires Escape(s) == Escape(t)
    ensures s == t
  {
    UnescapeEscape(s);
    UnescapeEscape(t);
  }

  /** Strings made only of unreserved characters are sent as they are. */
  lemma {:induction false} EscapeUnreserved(s: string)
    requires forall i | 0 <= i < |s| :: Unreserved(s[i])
    ensures Escape(s) == s
    decreases |s|
  {
    if |s| > 0 {
      EscapeUnreserved(s[1..]);
      assert [s[0]] + s[1..] == s;
    }
  }
}
