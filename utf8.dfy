/**
 * UTF-8 as defined in section 3 of RFC 3629: the encoding str.encode('utf-8')
 * produces and the strict decoding bytes.decode('utf-8') accepts.  Dafny's
 * char is a Unicode scalar value, so every string is encodable.
 */
module Utf8 {
  import opened Bytes
  import opened Wrappers

  predicate IsContinuation(x: byte) { 0x80 <= x < 0xC0 }

  /**
   * The one to four bytes of one character (section 3 of RFC 3629): the
   * code point is cut into 6-bit groups, the last group going last.
   */
  function EncodeChar(c: char): (r: seq<byte>)
    ensures 1 <= |r| <= 4
  {
    var cp := c as int;
    if cp < 0x80 then [cp as byte]
    else if cp < 0x800 then [(0xC0 + cp / 64) as byte, (0x80 + cp % 64) as byte]
    else if cp < 0x1_0000 then
      [(0xE0 + cp / 64 / 64) as byte, (0x80 + cp / 64 % 64) as byte, (0x80 + cp % 64) as byte]
    else
      [(0xF0 + cp / 64 / 64 / 64) as byte, (0x80 + cp / 64 / 64 % 64) as byte,
       (0x80 + cp / 64 % 64) as byte, (0x80 + cp % 64) as byte]
  }

  /** str.encode('utf-8'). */
  function Encode(s: string): (r: seq<byte>)
    ensures |r| >= |s|
  {
    if s == [] then [] else EncodeChar(s[0]) + Encode(s[1..])
  }

  /**
   * The character at the start of b and the number of bytes it takes, or
   * None when b does not start with a well-formed sequence: a stray
   * continuation byte, a lead byte C0, C1 or F5..FF, a missing continuation,
   * an overlong form, a surrogate, or a value above U+10FFFF.
   */
  function DecodeChar(b: seq<byte>): (r: Option<(char, nat)>)
    requires |b| >= 1
    ensures r.Some? ==> 1 <= r.value.1 <= |b|
  {
    var b0 := b[0] as int;
    if b0 < 0x80 then Some((b0 as char, 1))
    else if 0xC2 <= b0 <= 0xDF then
      if |b| >= 2 && IsContinuation(b[1]) then
        Some((((b0 - 0xC0) * 64 + (b[1] as int - 0x80)) as char, 2))
      else None
    else if 0xE0 <= b0 <= 0xEF then
      if |b| >= 3 && IsContinuation(b[1]) && IsContinuation(b[2]) then
        var cp := ((b0 - 0xE0) * 64 + (b[1] as int - 0x80)) * 64 + (b[2] as int - 0x80);
        if cp < 0x800 || 0xD800 <= cp <= 0xDFFF then None else Some((cp as char, 3))
      else None
    else if 0xF0 <= b0 <= 0xF4 then
      if |b| >= 4 && IsContinuation(b[1]) && IsContinuation(b[2]) && IsContinuation(b[3]) then
        var cp := (((b0 - 0xF0) * 64 + (b[1] as int - 0x80)) * 64 + (b[2] as int - 0x80)) * 64
                  + (b[3] as int - 0x80);
        if cp < 0x1_0000 || cp > 0x10_FFFF then None else Some((cp as char, 4))
      else None
    else None
  }

  /** bytes.decode('utf-8') in strict mode: None where Python raises UnicodeDecodeError. */
  function Decode(b: seq<byte>): (r: Option<string>)
    decreases |b|
  {
    if b == [] then Some([])
    else match DecodeChar(b)
      case None => None
      case Some((c, n)) =>
        match Decode(b[n..])
        case None => None
        case Some(rest) => Some([c] + rest)
  }

  lemma Split64(q: int, r: int)
    requires 0 <= r < 64
    ensures (q * 64 + r) / 64 == q && (q * 64 + r) % 64 == r
  {
  }

  lemma Join64(n: int)
    ensures n / 64 * 64 + n % 64 == n && 0 <= n % 64 < 64
  {
  }

  lemma DecodeEncodeChar(c: char, rest: seq<byte>)
    ensures DecodeChar(EncodeChar(c) + rest) == Some((c, |EncodeChar(c)|))
  {
    var cp := c as int;
    var b := EncodeChar(c) + rest;
    Join64(cp);
    Join64(cp / 64);
    Join64(cp / 64 / 64);
    if cp < 0x80 {
    } else if cp < 0x800 {
      assert b[0] as int - 0xC0 == cp / 64 && b[1] as int - 0x80 == cp % 64;
    } else if cp < 0x1_0000 {
      assert b[0] as int - 0xE0 == cp / 64 / 64;
      assert b[1] as int - 0x80 == cp / 64 % 64 && b[2] as int - 0x80 == cp % 64;
    } else {
      assert b[0] as int - 0xF0 == cp / 64 / 64 / 64;
      assert b[1] as int - 0x80 == cp / 64 / 64 % 64;
      assert b[2] as int - 0x80 == cp / 64 % 64 && b[3] as int - 0x80 == cp % 64;
    }
  }

  lemma EncodeDecodeChar(b: seq<byte>)
    requires |b| >= 1 && DecodeChar(b).Some?
    ensures EncodeChar(DecodeChar(b).value.0) == b[..DecodeChar(b).value.1]
  {
    var b0 := b[0] as int;
    if 0xC2 <= b0 <= 0xDF {
      Split64(b0 - 0xC0, b[1] as int - 0x80);
    } else if 0xE0 <= b0 <= 0xEF {
      EncodeDecodeThree(b);
    } else if 0xF0 <= b0 <= 0xF4 {
      EncodeDecodeFour(b);
    }
  }

  lemma EncodeDecodeThree(b: seq<byte>)
    requires |b| >= 3 && 0xE0 <= b[0] <= 0xEF && DecodeChar(b).Some?
    ensures EncodeChar(DecodeChar(b).value.0) == b[..3]
  {
    var q := (b[0] as int - 0xE0) * 64 + (b[1] as int - 0x80);
    Split64(q, b[2] as int - 0x80);
    Split64(b[0] as int - 0xE0, b[1] as int - 0x80);
  }

  lemma EncodeDecodeFour(b: seq<byte>)
    requires |b| >= 4 && 0xF0 <= b[0] <= 0xF4 && DecodeChar(b).Some?
    ensures EncodeChar(DecodeChar(b).value.0) == b[..4]
  {
    var q1 := (b[0] as int - 0xF0) * 64 + (b[1] as int - 0x80);
    var q2 := q1 * 64 + (b[2] as int - 0x80);
    Split64(q2, b[3] as int - 0x80);
    Split64(q1, b[2] as int - 0x80);
    Split64(b[0] as int - 0xF0, b[1] as int - 0x80);
  }

  /** Decoding the encoding of a string gives the string back. */
  lemma {:induction false} DecodeEncode(s: string)
    ensures Decode(Encode(s)) == Some(s)
  {
    if s != [] {
      var e := EncodeChar(s[0]);
      var b := Encode(s);
      assert b == e + Encode(s[1..]);
      DecodeEncodeChar(s[0], Encode(s[1..]));
      assert b[|e|..] == Encode(s[1..]);
      DecodeEncode(s[1..]);
      assert [s[0]] + s[1..] == s;
    }
  }

  /** Whatever the strict decoder accepts is the encoding of what it returns. */
  lemma {:induction false} EncodeDecode(b: seq<byte>)
    requires Decode(b).Some?
    ensures Encode(Decode(b).value) == b
    decreases |b|
  {
    if b != [] {
      var (c, n) := DecodeChar(b).value;
      EncodeDecodeChar(b);
      EncodeDecode(b[n..]);
      var s := Decode(b).value;
      assert s[0] == c && s[1..] == Decode(b[n..]).value;
      assert b == b[..n] + b[n..];
    }
  }

  /** The UTF-8 length counts bytes, not characters. */
  lemma EncodedLengthExamples()
    ensures |Encode("hello")| == 5
    ensures |Encode("caf\U{E9}")| == 5
    ensures |Encode("h\U{E9}llo")| == 6
    ensures |Encode("\U{6D4B}\U{8BD5}")| == 6
    ensures |Encode("")| == 0
  {
  }
}
