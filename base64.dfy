/**
 * Standard Base64 (section 4 of RFC 4648): alphabet A-Z a-z 0-9 + /, `=`
 * padding, no line breaks, as `Buffer.prototype.toString("base64")` writes it.
 */
module Base64 {
  import opened Results
  import opened Bytes

  /** The alphabet character for the six-bit value `i` (Table 1 of RFC 4648). */
  function Digit(i: nat): (c: char)
    requires i < 64
    ensures c != '='
  {
    if i < 26 then ('A' as int + i) as char
    else if i < 52 then ('a' as int + i - 26) as char
    else if i < 62 then ('0' as int + i - 52) as char
    else if i == 62 then '+'
    else '/'
  }

  /** The six-bit value an alphabet character stands for; `None` off the alphabet. */
  function IndexOf(c: char): (r: Option<nat>)
    ensures r.Some? ==> r.value < 64 && Digit(r.value) == c
  {
    if 'A' <= c <= 'Z' then Some(c as int - 'A' as int)
    else if 'a' <= c <= 'z' then Some(c as int - 'a' as int + 26)
    else if '0' <= c <= '9' then Some(c as int - '0' as int + 52)
    else if c == '+' then Some(62)
    else if c == '/' then Some(63)
    else None
  }

  lemma IndexOfDigit(i: nat)
    requires i < 64
    ensures IndexOf(Digit(i)) == Some(i)
  {
  }

  /** Number of `=` that close the encoding of `n` bytes. */
  function Padding(n: nat): nat {
    (3 - n % 3) % 3
  }

  /** Three more bytes leave the padding as it was. */
  lemma PaddingShift(n: nat)
    requires n >= 3
    ensures Padding(n) == Padding(n - 3) <= 2
  {
    assert n % 3 == (n - 3) % 3;
  }

  /** The four characters for the final one to three bytes of the input. */
  function EncodeGroup(g: seq<Byte>): (r: string)
    requires 1 <= |g| <= 3
    ensures |r| == 4
  {
    if |g| == 1 then
      [Digit(g[0] / 4), Digit(g[0] % 4 * 16), '=', '=']
    else if |g| == 2 then
      [Digit(g[0] / 4), Digit(g[0] % 4 * 16 + g[1] / 16), Digit(g[1] % 16 * 4), '=']
    else
      [Digit(g[0] / 4), Digit(g[0] % 4 * 16 + g[1] / 16), Digit(g[1] % 16 * 4 + g[2] / 64), Digit(g[2] % 64)]
  }

  /** Base64 of `b`: every 3 bytes become 4 characters, the last group padded. */
  function Encode(b: seq<Byte>): string
    decreases |b|
  {
    if b == [] then []
    else if |b| <= 3 then EncodeGroup(b)
    else EncodeGroup(b[..3]) + Encode(b[3..])
  }

  /** Four characters for every three bytes, the last group rounded up: 4 * ceil(n / 3). */
  lemma {:induction false} EncodeLength(b: seq<Byte>)
    ensures |Encode(b)| == 4 * ((|b| + 2) / 3)
    decreases |b|
  {
    if |b| > 3 {
      EncodeLength(b[3..]);
      assert (|b| + 2) / 3 == (|b[3..]| + 2) / 3 + 1;
    }
  }

  /**
   * The bytes behind four characters; padding is admitted only in the final
   * group, and the bits it leaves unused must be zero.
   */
  function DecodeGroup(q: string, last: bool): Option<seq<Byte>>
    requires |q| == 4
  {
    var i0, i1, i2, i3 := IndexOf(q[0]), IndexOf(q[1]), IndexOf(q[2]), IndexOf(q[3]);
    if i0.None? || i1.None? then None
    else if i2.Some? && i3.Some? then
      Some([i0.value * 4 + i1.value / 16, i1.value % 16 * 16 + i2.value / 4, i2.value % 4 * 64 + i3.value])
    else if last && i2.Some? && q[3] == '=' && i2.value % 4 == 0 then
      Some([i0.value * 4 + i1.value / 16, i1.value % 16 * 16 + i2.value / 4])
    else if last && q[2] == '=' && q[3] == '=' && i1.value % 16 == 0 then
      Some([i0.value * 4 + i1.value / 16])
    else None
  }

  /** Strict Base64 decoding: `None` unless `s` is exactly some encoder output. */
  function Decode(s: string): Option<seq<Byte>>
    decreases |s|
  {
    if s == [] then Some([])
    else if |s| < 4 then None
    else
      match DecodeGroup(s[..4], |s| == 4)
      case None => None
      case Some(g) =>
        match Decode(s[4..])
        case None => None
        case Some(rest) => Some(g + rest)
  }

  /** Three bytes split into four six-bit values and joined back. */
  lemma SplitJoin(b0: Byte, b1: Byte, b2: Byte)
    ensures var x1, x2 := b0 % 4 * 16 + b1 / 16, b1 % 16 * 4 + b2 / 64;
      && b0 / 4 * 4 + x1 / 16 == b0
      && x1 % 16 * 16 + x2 / 4 == b1
      && x2 % 4 * 64 + b2 % 64 == b2
  {
    var x1, x2 := b0 % 4 * 16 + b1 / 16, b1 % 16 * 4 + b2 / 64;
    assert x1 / 16 == b0 % 4 && x1 % 16 == b1 / 16;
    assert x2 / 4 == b1 % 16 && x2 % 4 == b2 / 64;
  }

  lemma DecodeEncodeOne(g: seq<Byte>)
    requires |g| == 1
    ensures DecodeGroup(EncodeGroup(g), true) == Some(g)
  {
    var x0, x1 := g[0] / 4, g[0] % 4 * 16;
    var q := EncodeGroup(g);
    assert q == [Digit(x0), Digit(x1), '=', '='];
    IndexOfDigit(x0);
    IndexOfDigit(x1);
    assert IndexOf(q[0]) == Some(x0) && IndexOf(q[1]) == Some(x1) && IndexOf(q[2]).None?;
    SplitJoin(g[0], 0, 0);
    assert g == [x0 * 4 + x1 / 16];
  }

  lemma DecodeEncodeTwo(g: seq<Byte>)
    requires |g| == 2
    ensures DecodeGroup(EncodeGroup(g), true) == Some(g)
  {
    var x0, x1, x2 := g[0] / 4, g[0] % 4 * 16 + g[1] / 16, g[1] % 16 * 4;
    var q := EncodeGroup(g);
    assert q == [Digit(x0), Digit(x1), Digit(x2), '='];
    IndexOfDigit(x0);
    IndexOfDigit(x1);
    IndexOfDigit(x2);
    assert IndexOf(q[0]) == Some(x0) && IndexOf(q[1]) == Some(x1);
    assert IndexOf(q[2]) == Some(x2) && IndexOf(q[3]).None?;
    SplitJoin(g[0], g[1], 0);
    assert g == [x0 * 4 + x1 / 16, x1 % 16 * 16 + x2 / 4];
  }

  lemma DecodeEncodeThree(g: seq<Byte>, last: bool)
    requires |g| == 3
    ensures DecodeGroup(EncodeGroup(g), last) == Some(g)
  {
    var x0, x1, x2, x3 := g[0] / 4, g[0] % 4 * 16 + g[1] / 16, g[1] % 16 * 4 + g[2] / 64, g[2] % 64;
    var q := EncodeGroup(g);
    assert q == [Digit(x0), Digit(x1), Digit(x2), Digit(x3)];
    IndexOfDigit(x0);
    IndexOfDigit(x1);
    IndexOfDigit(x2);
    IndexOfDigit(x3);
    assert IndexOf(q[0]) == Some(x0) && IndexOf(q[1]) == Some(x1);
    assert IndexOf(q[2]) == Some(x2) && IndexOf(q[3]) == Some(x3);
    SplitJoin(g[0], g[1], g[2]);
    assert g == [x0 * 4 + x1 / 16, x1 % 16 * 16 + x2 / 4, x2 % 4 * 64 + x3];
  }

  lemma DecodeEncodeGroup(g: seq<Byte>, last: bool)
    requires 1 <= |g| <= 3 && (|g| < 3 ==> last)
    ensures DecodeGroup(EncodeGroup(g), last) == Some(g)
  {
    if |g| == 1 {
      DecodeEncodeOne(g);
    } else if |g| == 2 {
      DecodeEncodeTwo(g);
    } else {
      DecodeEncodeThree(g, last);
    }
  }

  lemma EncodeDecodeGroup(q: string, last: bool)
    requires |q| == 4 && DecodeGroup(q, last).Some?
    ensures 1 <= |DecodeGroup(q, last).value| <= 3
    ensures |DecodeGroup(q, last).value| < 3 ==> last
    ensures EncodeGroup(DecodeGroup(q, last).value) == q
  {
    var g := DecodeGroup(q, last).value;
    var i0, i1 := IndexOf(q[0]).value, IndexOf(q[1]).value;
    assert g[0] / 4 == i0;
    if IndexOf(q[2]).Some? && IndexOf(q[3]).Some? {
      var i2, i3 := IndexOf(q[2]).value, IndexOf(q[3]).value;
      assert |g| == 3;
      assert g[0] % 4 * 16 + g[1] / 16 == i1;
      assert g[1] % 16 * 4 + g[2] / 64 == i2;
      assert g[2] % 64 == i3;
    } else if last && IndexOf(q[2]).Some? && q[3] == '=' && IndexOf(q[2]).value % 4 == 0 {
      var i2 := IndexOf(q[2]).value;
      assert |g| == 2;
      assert g[0] % 4 * 16 + g[1] / 16 == i1;
      assert g[1] % 16 * 4 == i2;
    } else {
      assert |g| == 1;
      assert g[0] % 4 * 16 == i1;
    }
  }

  /** Decoding the encoding of any byte string gives it back. */
  lemma {:induction false} DecodeEncode(b: seq<Byte>)
    ensures Decode(Encode(b)) == Some(b)
    decreases |b|
  {
    if b != [] {
      var s := Encode(b);
      if |b| <= 3 {
        DecodeEncodeGroup(b, true);
        assert s[..4] == s && s[4..] == [];
        assert Decode(s[4..]) == Some([]);
        assert b + [] == b;
      } else {
        DecodeEncodeGroup(b[..3], |s| == 4);
        assert s[..4] == EncodeGroup(b[..3]);
        assert s[4..] == Encode(b[3..]);
        DecodeEncode(b[3..]);
        assert b[..3] + b[3..] == b;
      }
    }
  }

  /** The decoder accepts only the encoder's output, so Base64 is one-to-one. */
  lemma {:induction false} EncodeDecode(s: string)
    requires Decode(s).Some?
    ensures Encode(Decode(s).value) == s
    decreases |s|
  {
    if s != [] {
      var g := DecodeGroup(s[..4], |s| == 4).value;
      var rest := Decode(s[4..]).value;
      assert Decode(s).value == g + rest;
      EncodeDecodeGroup(s[..4], |s| == 4);
      EncodeDecode(s[4..]);
      if |s| == 4 {
        assert rest == [] && g + rest == g;
      } else {
        assert |g| == 3 && rest != [];
        var b := g + rest;
        assert b[..3] == g && b[3..] == rest;
        assert Encode(b) == EncodeGroup(g) + Encode(rest);
      }
      assert s == s[..4] + s[4..];
    }
  }

  /**
   * `s` is alphabet characters followed by exactly `pad` characters `=`:
   * padding appears only at the end.
   */
  ghost predicate PaddedTo(s: string, pad: nat) {
    forall i | 0 <= i < |s| ::
      && (s[i] == '=' <==> i >= |s| - pad)
      && (s[i] == '=' || IndexOf(s[i]).Some?)
  }

  lemma PaddedConcat(q: string, rest: string, pad: nat)
    requires PaddedTo(q, 0) && PaddedTo(rest, pad) && pad <= |rest|
    ensures PaddedTo(q + rest, pad)
  {
    forall i | 0 <= i < |q + rest|
      ensures (q + rest)[i] == (if i < |q| then q[i] else rest[i - |q|])
    {
    }
  }

  /** One group's characters: alphabet characters, then `Padding` of `=`. */
  lemma GroupAlphabet(g: seq<Byte>)
    requires 1 <= |g| <= 3
    ensures PaddedTo(EncodeGroup(g), Padding(|g|))
  {
    IndexOfDigit(g[0] / 4);
    if |g| == 1 {
      IndexOfDigit(g[0] % 4 * 16);
    } else if |g| == 2 {
      IndexOfDigit(g[0] % 4 * 16 + g[1] / 16);
      IndexOfDigit(g[1] % 16 * 4);
    } else {
      IndexOfDigit(g[0] % 4 * 16 + g[1] / 16);
      IndexOfDigit(g[1] % 16 * 4 + g[2] / 64);
      IndexOfDigit(g[2] % 64);
    }
  }

  /**
   * Every character of an encoding is from the alphabet except the `=`
   * padding, which appears only as the last `Padding(|b|)` characters.
   */
  lemma {:induction false} EncodeAlphabet(b: seq<Byte>)
    ensures PaddedTo(Encode(b), Padding(|b|))
    decreases |b|
  {
    if 0 < |b| <= 3 {
      GroupAlphabet(b);
    } else if |b| > 3 {
      var q, rest := EncodeGroup(b[..3]), Encode(b[3..]);
      GroupAlphabet(b[..3]);
      assert PaddedTo(q, 0);
      EncodeAlphabet(b[3..]);
      PaddingShift(|b|);
      assert |rest| >= 4 by {
        if |b[3..]| > 3 {
          assert rest == EncodeGroup(b[3..][..3]) + Encode(b[3..][3..]);
        }
      }
      PaddedConcat(q, rest, Padding(|b|));
      assert Encode(b) == q + rest;
    }
  }
}
