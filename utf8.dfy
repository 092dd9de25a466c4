/**
 * UTF-8 (RFC 3629) over Unicode scalar values. Dafny's `char` is exactly a
 * Unicode scalar value, so every `string` here is well formed.
 */
module Utf8 {
  import opened Results
  import opened Bytes

  /** A continuation byte, 10xxxxxx. */
  predicate IsTrail(b: Byte) {
    0x80 <= b < 0xC0
  }

  /** The six payload bits of a continuation byte. */
  function Payload(b: Byte): int {
    b as int - 0x80
  }

  /** The one to four bytes that encode `c` (section 3 of RFC 3629). */
  function EncodeChar(c: char): (r: seq<Byte>)
    ensures 1 <= |r| <= 4
    ensures |r| == 1 <==> (c as int) < 0x80
  {
    var n := c as int;
    if n < 0x80 then [n]
    else if n < 0x800 then [0xC0 + n / 0x40, 0x80 + n % 0x40]
    else if n < 0x1_0000 then [0xE0 + n / 0x1000, 0x80 + n / 0x40 % 0x40, 0x80 + n % 0x40]
    else [0xF0 + n / 0x4_0000, 0x80 + n / 0x1000 % 0x40, 0x80 + n / 0x40 % 0x40, 0x80 + n % 0x40]
  }

  /** `Buffer.from(s, "utf8")`. */
  function Encode(s: string): (r: seq<Byte>)
    ensures |s| <= |r| <= 4 * |s|
  {
    if s == [] then [] else EncodeChar(s[0]) + Encode(s[1..])
  }

  /**
   * The scalar value at the head of `b` and the number of bytes it takes, or
   * `None` when the head is not the shortest encoding of a scalar value.
   */
  function DecodeChar(b: seq<Byte>): (r: Option<(char, nat)>)
    requires |b| > 0
    ensures r.Some? ==> 1 <= r.value.1 <= |b|
  {
    var b0 := b[0] as int;
    if b0 < 0x80 then Some((b0 as char, 1))
    else if b0 < 0xC0 then None
    else if b0 < 0xE0 then
      if |b| < 2 || !IsTrail(b[1]) then None
      else
        var n := (b0 - 0xC0) * 0x40 + Payload(b[1]);
        if n < 0x80 then None else Some((n as char, 2))
    else if b0 < 0xF0 then
      if |b| < 3 || !IsTrail(b[1]) || !IsTrail(b[2]) then None
      else
        var n := (b0 - 0xE0) * 0x1000 + Payload(b[1]) * 0x40 + Payload(b[2]);
        if n < 0x800 || 0xD800 <= n < 0xE000 then None else Some((n as char, 3))
    else if b0 < 0xF8 then
      if |b| < 4 || !IsTrail(b[1]) || !IsTrail(b[2]) || !IsTrail(b[3]) then None
      else
        var n := (b0 - 0xF0) * 0x4_0000 + Payload(b[1]) * 0x1000 + Payload(b[2]) * 0x40 + Payload(b[3]);
        if n < 0x1_0000 || 0x11_0000 <= n then None else Some((n as char, 4))
    else None
  }

  /** Strict UTF-8 decoding: `None` on any ill-formed byte sequence. */
  function Decode(b: seq<Byte>): Option<string>
    decreases |b|
  {
    if b == [] then Some([])
    else
      match DecodeChar(b)
      case None => None
      case Some((c, n)) =>
        match Decode(b[n..])
        case None => None
        case Some(rest) => Some([c] + rest)
  }

  lemma DecodeEncodeChar(c: char, tail: seq<Byte>)
    ensures DecodeChar(EncodeChar(c) + tail) == Some((c, |EncodeChar(c)|))
  {
    var n := c as int;
    if n < 0x80 {
      assert (EncodeChar(c) + tail)[0] == n;
    } else if n < 0x800 {
      DecodeTwo(c, tail);
    } else if n < 0x1_0000 {
      DecodeThree(c, tail);
    } else {
      DecodeFour(c, tail);
    }
  }

  lemma DecodeTwo(c: char, tail: seq<Byte>)
    requires 0x80 <= c as int < 0x800
    ensures DecodeChar(EncodeChar(c) + tail) == Some((c, 2))
  {
    var n := c as int;
    var b := EncodeChar(c) + tail;
    var c0, p1 := n / 0x40, n % 0x40;
    assert b[0] == 0xC0 + c0 && b[1] == 0x80 + p1;
    assert n == c0 * 0x40 + p1;
  }

  lemma DecodeThree(c: char, tail: seq<Byte>)
    requires 0x800 <= c as int < 0x1_0000
    ensures DecodeChar(EncodeChar(c) + tail) == Some((c, 3))
  {
    var n := c as int;
    var b := EncodeChar(c) + tail;
    var c0, p1, p2 := n / 0x1000, n / 0x40 % 0x40, n % 0x40;
    assert b[0] == 0xE0 + c0 && b[1] == 0x80 + p1 && b[2] == 0x80 + p2;
    Split(n);
  }

  lemma DecodeFour(c: char, tail: seq<Byte>)
    requires 0x1_0000 <= c as int
    ensures DecodeChar(EncodeChar(c) + tail) == Some((c, 4))
  {
    var n := c as int;
    var b := EncodeChar(c) + tail;
    var c0, p1, p2, p3 := n / 0x4_0000, n / 0x1000 % 0x40, n / 0x40 % 0x40, n % 0x40;
    assert b[0] == 0xF0 + c0 && b[1] == 0x80 + p1 && b[2] == 0x80 + p2 && b[3] == 0x80 + p3;
    Split(n);
  }

  /** A scalar value as its six-bit groups, most significant first. */
  lemma Split(n: nat)
    ensures n == n / 0x1000 * 0x1000 + n / 0x40 % 0x40 * 0x40 + n % 0x40
    ensures n == n / 0x4_0000 * 0x4_0000 + n / 0x1000 % 0x40 * 0x1000 + n / 0x40 % 0x40 * 0x40 + n % 0x40
  {
    var a := n / 0x40;
    assert n == a * 0x40 + n % 0x40;
    assert a == a / 0x40 * 0x40 + a % 0x40;
    assert a / 0x40 == n / 0x1000;
    var d := a / 0x40;
    assert d == d / 0x40 * 0x40 + d % 0x40;
    assert d / 0x40 == n / 0x4_0000;
    assert d % 0x40 == n / 0x1000 % 0x40;
  }

  lemma DivMod6(q: int, r: int)
    requires 0 <= r < 0x40
    ensures (q * 0x40 + r) / 0x40 == q && (q * 0x40 + r) % 0x40 == r
  {
  }

  lemma DivMod12(q: int, r: int)
    requires 0 <= r < 0x1000
    ensures (q * 0x1000 + r) / 0x1000 == q
  {
  }

  lemma DivMod18(q: int, r: int)
    requires 0 <= r < 0x4_0000
    ensures (q * 0x4_0000 + r) / 0x4_0000 == q
  {
  }

  lemma EncodeTwo(c0: int, p1: int)
    requires 0 <= c0 < 0x20 && 0 <= p1 < 0x40 && 0x80 <= c0 * 0x40 + p1
    ensures EncodeChar((c0 * 0x40 + p1) as char) == [0xC0 + c0, 0x80 + p1]
  {
    DivMod6(c0, p1);
  }

  lemma EncodeThree(c0: int, p1: int, p2: int)
    requires 0 <= c0 < 0x10 && 0 <= p1 < 0x40 && 0 <= p2 < 0x40
    requires var n := c0 * 0x1000 + p1 * 0x40 + p2; 0x800 <= n && !(0xD800 <= n < 0xE000)
    ensures EncodeChar((c0 * 0x1000 + p1 * 0x40 + p2) as char) == [0xE0 + c0, 0x80 + p1, 0x80 + p2]
  {
    var n := c0 * 0x1000 + p1 * 0x40 + p2;
    DivMod12(c0, p1 * 0x40 + p2);
    assert n == (c0 * 0x40 + p1) * 0x40 + p2;
    DivMod6(c0 * 0x40 + p1, p2);
    DivMod6(c0, p1);
  }

  lemma EncodeFour(c0: int, p1: int, p2: int, p3: int)
    requires 0 <= c0 < 0x08 && 0 <= p1 < 0x40 && 0 <= p2 < 0x40 && 0 <= p3 < 0x40
    requires var n := c0 * 0x4_0000 + p1 * 0x1000 + p2 * 0x40 + p3; 0x1_0000 <= n < 0x11_0000
    ensures EncodeChar((c0 * 0x4_0000 + p1 * 0x1000 + p2 * 0x40 + p3) as char)
         == [0xF0 + c0, 0x80 + p1, 0x80 + p2, 0x80 + p3]
  {
    var n := c0 * 0x4_0000 + p1 * 0x1000 + p2 * 0x40 + p3;
    DivMod18(c0, p1 * 0x1000 + p2 * 0x40 + p3);
    assert n == (c0 * 0x40 + p1) * 0x1000 + (p2 * 0x40 + p3);
    DivMod12(c0 * 0x40 + p1, p2 * 0x40 + p3);
    DivMod6(c0, p1);
    assert n == ((c0 * 0x40 + p1) * 0x40 + p2) * 0x40 + p3;
    DivMod6((c0 * 0x40 + p1) * 0x40 + p2, p3);
    DivMod6(c0 * 0x40 + p1, p2);
  }

  lemma EncodeDecodeChar(b: seq<Byte>)
    requires |b| > 0 && DecodeChar(b).Some?
    ensures b[..DecodeChar(b).value.1] == EncodeChar(DecodeChar(b).value.0)
  {
    var len := DecodeChar(b).value.1;
    if len == 2 {
      EncodeTwo(b[0] - 0xC0, Payload(b[1]));
    } else if len == 3 {
      EncodeThree(b[0] - 0xE0, Payload(b[1]), Payload(b[2]));
    } else if len == 4 {
      EncodeFour(b[0] - 0xF0, Payload(b[1]), Payload(b[2]), Payload(b[3]));
    }
  }

  /** Decoding the encoding of any string gives the string back. */
  lemma {:induction false} DecodeEncode(s: string)
    ensures Decode(Encode(s)) == Some(s)
  {
    if s != [] {
      var b := Encode(s);
      DecodeEncodeChar(s[0], Encode(s[1..]));
      assert b[|EncodeChar(s[0])|..] == Encode(s[1..]);
      DecodeEncode(s[1..]);
      assert Decode(b) == Some([s[0]] + s[1..]);
      assert [s[0]] + s[1..] == s;
    }
  }

  /** The decoder accepts only the encoder's output: UTF-8 is one-to-one. */
  lemma {:induction false} EncodeDecode(b: seq<Byte>)
    requires Decode(b).Some?
    ensures Encode(Decode(b).value) == b
  {
    if b != [] {
      var (c, n) := DecodeChar(b).value;
      var rest := Decode(b[n..]).value;
      assert Decode(b).value == [c] + rest;
      EncodeDecodeChar(b);
      EncodeDecode(b[n..]);
      var s := [c] + rest;
      assert s[0] == c && s[1..] == rest;
      assert Encode(s) == EncodeChar(c) + Encode(rest);
      assert b == b[..n] + b[n..];
    }
  }
}
