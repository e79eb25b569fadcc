/**
 * ECMAScript `encodeURIComponent` (section 19.2.6.5 of ECMA-262, percent-encoding as in
 * section 2.1 of RFC 3986): every character outside `A-Z a-z 0-9 - _ . ! ~ * ' ( )` is
 * replaced by the `%HH` escapes of its UTF-8 bytes, with upper-case hex digits. Node's
 * `querystring.escape` uses the same set of unescaped characters.
 *
 * Its partner is `DecodeURIComponent`, which undoes it: `%HH` escapes (either hex case)
 * become bytes, other characters their own UTF-8 bytes, and the bytes are read back as
 * UTF-8. Dafny's `char` is a Unicode scalar value, so the lone surrogates that make the
 * JavaScript function throw a `URIError` cannot occur here.
 */
module Uri {
  import opened Wrappers

  type byte = b: int | 0 <= b < 256

  /** The characters `encodeURIComponent` leaves as they are. */
  predicate IsUnreserved(c: char)
  {
    ('A' <= c <= 'Z') || ('a' <= c <= 'z') || ('0' <= c <= '9') ||
    c == '-' || c == '_' || c == '.' || c == '!' || c == '~' || c == '*' ||
    c == '\'' || c == '(' || c == ')'
  }

  /** The UTF-8 encoding of one Unicode scalar value. */
  function Utf8Char(c: char): (r: seq<byte>)
    ensures 1 <= |r| <= 4
    ensures |r| == 1 <==> c as int < 0x80
    ensures |r| == 1 ==> r[0] == c as int
  {
    var n := c as int;
    if n < 0x80 then [n]
    else if n < 0x800 then [0xC0 + n / 64, 0x80 + n % 64]
    else if n < 0x10000 then [0xE0 + n / 4096, 0x80 + (n / 64) % 64, 0x80 + n % 64]
    else [0xF0 + n / 0x40000, 0x80 + (n / 4096) % 64, 0x80 + (n / 64) % 64, 0x80 + n % 64]
  }

  /** The UTF-8 encoding of a string. */
  function Utf8Encode(s: string): seq<byte>
  {
    if s == [] then [] else Utf8Char(s[0]) + Utf8Encode(s[1..])
  }

  const HexDigits: string := "0123456789ABCDEF"

  /** `%HH` for one byte. */
  function PercentByte(b: byte): (r: string)
    ensures |r| == 3 && r[0] == '%' && IsUnreserved(r[1]) && IsUnreserved(r[2])
  {
    ['%', HexDigits[b / 16], HexDigits[b % 16]]
  }

  function PercentBytes(bs: seq<byte>): string
  {
    if bs == [] then "" else PercentByte(bs[0]) + PercentBytes(bs[1..])
  }

  function EncodeChar(c: char): string
  {
    if IsUnreserved(c) then [c] else PercentBytes(Utf8Char(c))
  }

  /** `encodeURIComponent(s)`. */
  function EncodeURIComponent(s: string): (r: string)
    ensures forall i :: 0 <= i < |r| ==> IsUnreserved(r[i]) || r[i] == '%'
    ensures |r| >= |s|
  {
    if s == [] then ""
    else
      var head := EncodeChar(s[0]);
      PercentBytesAlphabet(Utf8Char(s[0]));
      assert forall i :: 0 <= i < |head| ==> IsUnreserved(head[i]) || head[i] == '%';
      head + EncodeURIComponent(s[1..])
  }

  /** Escaping leaves a string unchanged exactly when every character in it is unreserved. */
  lemma {:induction false} EncodeIdentity(s: string)
    ensures EncodeURIComponent(s) == s <==> forall i :: 0 <= i < |s| ==> IsUnreserved(s[i])
  {
    if s != [] {
      EncodeIdentity(s[1..]);
      var head := EncodeChar(s[0]);
      var tail := EncodeURIComponent(s[1..]);
      assert EncodeURIComponent(s) == head + tail;
      if IsUnreserved(s[0]) {
        assert head == [s[0]];
        assert s == [s[0]] + s[1..];
        assert (forall i :: 0 <= i < |s| ==> IsUnreserved(s[i])) <==> (forall i :: 0 <= i < |s[1..]| ==> IsUnreserved(s[1..][i]));
      } else {
        PercentBytesAlphabet(Utf8Char(s[0]));
        assert |head + tail| > |s|;
      }
    }
  }


  lemma {:induction false} PercentBytesAlphabet(bs: seq<byte>)
    ensures forall i :: 0 <= i < |PercentBytes(bs)| ==> IsUnreserved(PercentBytes(bs)[i]) || PercentBytes(bs)[i] == '%'
    ensures bs != [] ==> |PercentBytes(bs)| >= 3 && PercentBytes(bs)[0] == '%'
  {
    if bs != [] {
      PercentBytesAlphabet(bs[1..]);
    }
  }

  /** The value of a hex digit of either case. */
  function HexValue(c: char): (r: Option<nat>)
    ensures r.Some? ==> r.value < 16
  {
    if '0' <= c <= '9' then Some(c as int - '0' as int)
    else if 'A' <= c <= 'F' then Some(c as int - 'A' as int + 10)
    else if 'a' <= c <= 'f' then Some(c as int - 'a' as int + 10)
    else None
  }

  /**
   * The bytes a percent-encoded string stands for: `%HH` is one byte, any other character its
   * UTF-8 bytes; `None` when a `%` is not followed by two hex digits (where `decodeURIComponent`
   * throws a `URIError`).
   */
  function PercentDecode(t: string): Option<seq<byte>>
    decreases |t|
  {
    if t == [] then Some([])
    else if t[0] == '%' then
      if |t| >= 3 && HexValue(t[1]).Some? && HexValue(t[2]).Some? then
        match PercentDecode(t[3..])
        case None => None
        case Some(rest) => Some([HexValue(t[1]).value * 16 + HexValue(t[2]).value] + rest)
      else None
    else
      match PercentDecode(t[1..])
      case None => None
      case Some(rest) => Some(Utf8Char(t[0]) + rest)
  }

  predicate IsContinuation(b: byte) { 0x80 <= b < 0xC0 }

  /** The scalar value the first UTF-8 sequence of `bs` stands for, with its length in bytes. */
  function Utf8First(bs: seq<byte>): (r: Option<(char, nat)>)
    requires |bs| > 0
    ensures r.Some? ==> 1 <= r.value.1 <= |bs|
  {
    var b0: int := bs[0];
    if b0 < 0x80 then Some((b0 as char, 1))
    else if 0xC0 <= b0 < 0xE0 && |bs| >= 2 && IsContinuation(bs[1]) then
      var n := (b0 - 0xC0) * 64 + (bs[1] as int - 0x80);
      if n >= 0x80 then Some((n as char, 2)) else None
    else if 0xE0 <= b0 < 0xF0 && |bs| >= 3 && IsContinuation(bs[1]) && IsContinuation(bs[2]) then
      var n := (b0 - 0xE0) * 4096 + (bs[1] as int - 0x80) * 64 + (bs[2] as int - 0x80);
      if n >= 0x800 && !(0xD800 <= n < 0xE000) then Some((n as char, 3)) else None
    else if 0xF0 <= b0 < 0xF8 && |bs| >= 4 && IsContinuation(bs[1]) && IsContinuation(bs[2]) && IsContinuation(bs[3]) then
      var n := (b0 - 0xF0) * 0x40000 + (bs[1] as int - 0x80) * 4096 + (bs[2] as int - 0x80) * 64 + (bs[3] as int - 0x80);
      if 0x10000 <= n < 0x110000 then Some((n as char, 4)) else None
    else None
  }

  /** Strict UTF-8 decoding; `None` for malformed, overlong or surrogate sequences. */
  function Utf8Decode(bs: seq<byte>): Option<string>
    decreases |bs|
  {
    if bs == [] then Some("")
    else
      match Utf8First(bs)
      case None => None
      case Some((c, n)) =>
        match Utf8Decode(bs[n..])
        case None => None
        case Some(rest) => Some([c] + rest)
  }

  /** `decodeURIComponent(t)`, with `None` where the JavaScript function throws a `URIError`. */
  function DecodeURIComponent(t: string): Option<string>
  {
    match PercentDecode(t)
    case None => None
    case Some(bs) => Utf8Decode(bs)
  }

  /** `t` is a percent-encoding of `s`: it stands for exactly the UTF-8 bytes of `s`. */
  ghost predicate EncodesTo(t: string, s: string)
  {
    PercentDecode(t) == Some(Utf8Encode(s))
  }

  lemma {:induction false} Utf8EncodeAppend(a: string, b: string)
    ensures Utf8Encode(a + b) == Utf8Encode(a) + Utf8Encode(b)
  {
    if a == [] {
      assert a + b == b;
    } else {
      assert (a + b)[0] == a[0];
      assert (a + b)[1..] == a[1..] + b;
      Utf8EncodeAppend(a[1..], b);
    }
  }

  /** Decoding distributes over concatenation when the first part decodes by itself. */
  lemma {:induction false} PercentDecodeAppend(a: string, b: string)
    requires PercentDecode(a).Some?
    ensures PercentDecode(b).None? ==> PercentDecode(a + b).None?
    ensures PercentDecode(b).Some? ==> PercentDecode(a + b) == Some(PercentDecode(a).value + PercentDecode(b).value)
    decreases |a|
  {
    if a == [] {
      assert a + b == b;
      var e: seq<byte> := [];
      assert PercentDecode(a).value == e;
      if PercentDecode(b).Some? {
        assert e + PercentDecode(b).value == PercentDecode(b).value;
      }
    } else if a[0] == '%' {
      assert (a + b)[0] == '%' && (a + b)[1] == a[1] && (a + b)[2] == a[2];
      assert (a + b)[3..] == a[3..] + b;
      PercentDecodeAppend(a[3..], b);
      var h: seq<byte> := [HexValue(a[1]).value * 16 + HexValue(a[2]).value];
      var x := PercentDecode(a[3..]).value;
      assert PercentDecode(a).value == h + x;
      if PercentDecode(b).Some? {
        var y := PercentDecode(b).value;
        assert PercentDecode(a + b).value == h + (x + y);
        assert h + (x + y) == (h + x) + y;
      }
    } else {
      assert (a + b)[0] == a[0];
      assert (a + b)[1..] == a[1..] + b;
      PercentDecodeAppend(a[1..], b);
      var x := PercentDecode(a[1..]).value;
      assert PercentDecode(a).value == Utf8Char(a[0]) + x;
      if PercentDecode(b).Some? {
        var y := PercentDecode(b).value;
        assert PercentDecode(a + b).value == Utf8Char(a[0]) + (x + y);
        assert Utf8Char(a[0]) + (x + y) == (Utf8Char(a[0]) + x) + y;
      }
    }
  }

  /** Concatenating encodings gives an encoding of the concatenation. */
  lemma EncodesToAppend(t1: string, s1: string, t2: string, s2: string)
    requires EncodesTo(t1, s1) && EncodesTo(t2, s2)
    ensures EncodesTo(t1 + t2, s1 + s2)
  {
    PercentDecodeAppend(t1, t2);
    Utf8EncodeAppend(s1, s2);
  }

  /** Text without `%` is an encoding of itself. */
  lemma {:induction false} EncodesToSelf(s: string)
    requires '%' !in s
    ensures EncodesTo(s, s)
  {
    if s != [] {
      EncodesToSelf(s[1..]);
    }
  }

  lemma HexDigitsValue(d: nat)
    requires d < 16
    ensures HexValue(HexDigits[d]) == Some(d)
  {
  }

  lemma {:induction false} PercentBytesDecode(bs: seq<byte>)
    ensures PercentDecode(PercentBytes(bs)) == Some(bs)
  {
    if bs != [] {
      PercentByteDecodes(bs[0], PercentBytes(bs[1..]));
      PercentBytesDecode(bs[1..]);
      assert [bs[0]] + bs[1..] == bs;
    }
  }

  /** A `%HH` triple in front decodes to its byte, in front of whatever the rest decodes to. */
  lemma PercentByteDecodes(b: byte, t: string)
    ensures PercentDecode(PercentByte(b) + t) == match PercentDecode(t) case None => None case Some(rest) => Some([b] + rest)
  {
    var p := PercentByte(b) + t;
    HexDigitsValue(b / 16);
    HexDigitsValue(b % 16);
    assert p[0] == '%' && p[1] == HexDigits[b / 16] && p[2] == HexDigits[b % 16];
    assert p[3..] == t;
  }

  /** `encodeURIComponent(s)` is a percent-encoding of `s`. */
  lemma {:induction false} EncodeURIComponentEncodes(s: string)
    ensures EncodesTo(EncodeURIComponent(s), s)
  {
    if s != [] {
      EncodeURIComponentEncodes(s[1..]);
      var c := s[0];
      if IsUnreserved(c) {
        EncodesToSelf([c]);
      } else {
        PercentBytesDecode(Utf8Char(c));
        assert Utf8Encode([c]) == Utf8Char(c);
      }
      EncodesToAppend(EncodeChar(c), [c], EncodeURIComponent(s[1..]), s[1..]);
      assert [c] + s[1..] == s;
    }
  }

  /** Reading a character's own UTF-8 bytes gives back that character. */
  lemma Utf8FirstOfChar(c: char, rest: seq<byte>)
    ensures Utf8First(Utf8Char(c) + rest) == Some((c, |Utf8Char(c)|))
  {
    var n := c as int;
    if n < 0x80 {
    } else if n < 0x800 {
      Utf8FirstOfTwo(c, rest);
    } else if n < 0x10000 {
      Utf8FirstOfThree(c, rest);
    } else {
      Utf8FirstOfFour(c, rest);
    }
  }

  lemma Utf8FirstOfTwo(c: char, rest: seq<byte>)
    requires 0x80 <= c as int < 0x800
    ensures Utf8First(Utf8Char(c) + rest) == Some((c, 2))
  {
    var n := c as int;
    var bs := Utf8Char(c) + rest;
    assert bs[0] == 0xC0 + n / 64 && bs[1] == 0x80 + n % 64;
    assert (bs[0] as int - 0xC0) * 64 + (bs[1] as int - 0x80) == n;
  }

  lemma Utf8FirstOfThree(c: char, rest: seq<byte>)
    requires 0x800 <= c as int < 0x10000
    ensures Utf8First(Utf8Char(c) + rest) == Some((c, 3))
  {
    var n := c as int;
    var bs := Utf8Char(c) + rest;
    assert bs[0] == 0xE0 + n / 4096 && bs[1] == 0x80 + (n / 64) % 64 && bs[2] == 0x80 + n % 64;
    assert (bs[0] as int - 0xE0) * 4096 + (bs[1] as int - 0x80) * 64 + (bs[2] as int - 0x80) == n;
  }

  lemma Utf8FirstOfFour(c: char, rest: seq<byte>)
    requires 0x10000 <= c as int
    ensures Utf8First(Utf8Char(c) + rest) == Some((c, 4))
  {
    var n := c as int;
    var bs := Utf8Char(c) + rest;
    assert bs[0] == 0xF0 + n / 0x40000 && bs[1] == 0x80 + (n / 4096) % 64;
    assert bs[2] == 0x80 + (n / 64) % 64 && bs[3] == 0x80 + n % 64;
    SixBitGroups(n);
  }

  /** A number below `0x110000` is recovered from its four 6-bit groups (the top one 3 bits wide). */
  lemma SixBitGroups(n: nat)
    ensures (n / 0x40000) * 0x40000 + ((n / 4096) % 64) * 4096 + ((n / 64) % 64) * 64 + n % 64 == n
  {
    var q1 := n / 64;
    var q2 := q1 / 64;
    var q3 := q2 / 64;
    assert n == q1 * 64 + n % 64;
    assert q1 == q2 * 64 + q1 % 64;
    assert q2 == q3 * 64 + q2 % 64;
    assert q2 == n / 4096;
    assert q3 == n / 0x40000;
  }

  /** UTF-8 decoding undoes UTF-8 encoding. */
  lemma {:induction false} Utf8RoundTrip(s: string)
    ensures Utf8Decode(Utf8Encode(s)) == Some(s)
  {
    if s != [] {
      var bs := Utf8Encode(s);
      Utf8FirstOfChar(s[0], Utf8Encode(s[1..]));
      assert bs[|Utf8Char(s[0])|..] == Utf8Encode(s[1..]);
      Utf8RoundTrip(s[1..]);
      assert [s[0]] + s[1..] == s;
    }
  }

  /** Whatever percent-encodes `s` decodes to `s`. */
  lemma EncodesToDecodes(t: string, s: string)
    requires EncodesTo(t, s)
    ensures DecodeURIComponent(t) == Some(s)
  {
    Utf8RoundTrip(s);
  }

  /** `decodeURIComponent(encodeURIComponent(s)) == s`. */
  lemma DecodeEncode(s: string)
    ensures DecodeURIComponent(EncodeURIComponent(s)) == Some(s)
  {
    EncodeURIComponentEncodes(s);
    EncodesToDecodes(EncodeURIComponent(s), s);
  }

  /** Hence `encodeURIComponent` is injective: distinct texts never share an encoding. */
  lemma EncodeInjective(s1: string, s2: string)
    requires EncodeURIComponent(s1) == EncodeURIComponent(s2)
    ensures s1 == s2
  {
    DecodeEncode(s1);
    DecodeEncode(s2);
  }

  /** An encoded value holds none of the query-string delimiters `&`, `=`, `,` and `:`. */
  lemma EncodedHasNoDelimiters(s: string)
    ensures '&' !in EncodeURIComponent(s) && '=' !in EncodeURIComponent(s)
    ensures ',' !in EncodeURIComponent(s) && ':' !in EncodeURIComponent(s)
  {
    var r := EncodeURIComponent(s);
    forall i | 0 <= i < |r|
      ensures r[i] != '&' && r[i] != '=' && r[i] != ',' && r[i] != ':'
    {
      assert IsUnreserved(r[i]) || r[i] == '%';
    }
  }

  /** `encodeURIComponent` works character by character, so it distributes over concatenation. */
  lemma {:induction false} EncodeURIComponentAppend(a: string, b: string)
    ensures EncodeURIComponent(a + b) == EncodeURIComponent(a) + EncodeURIComponent(b)
  {
    if a == [] {
      assert a + b == b;
    } else {
      assert (a + b)[0] == a[0] && (a + b)[1..] == a[1..] + b;
      EncodeURIComponentAppend(a[1..], b);
    }
  }

  /** `%20` is the escape of a space, so `%20AND%20` encodes ` AND `. */
  lemma EncodesSpaceAnd()
    ensures EncodesTo("%20", " ")
    ensures EncodesTo("%20AND%20", " AND ")
  {
    assert HexValue('2') == Some(2) && HexValue('0') == Some(0);
    assert "%20"[3..] == "";
    assert Utf8Encode(" ") == [32];
    EncodesToSelf("AND");
    EncodesToAppend("%20", " ", "AND", "AND");
    EncodesToAppend("%20AND", " AND", "%20", " ");
    assert "%20AND" + "%20" == "%20AND%20" && " AND" + " " == " AND ";
  }
}
