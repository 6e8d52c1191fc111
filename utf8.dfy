/** UTF-8 as defined by RFC 3629: what `String.getBytes("UTF-8")` produces
    from the master secret and the password hint. A Dafny `char` is a
    Unicode scalar value (a code point outside the surrogate range), so
    every character has exactly one encoding of one to four octets. */
module Utf8 {
  import opened Common

  /** Octets of the form 10xxxxxx, which continue a multi-octet sequence. */
  predicate IsContinuation(b: byte)
  {
    0x80 <= b < 0xC0
  }

  /** Section 3 of RFC 3629: one octet below U+0080, two below U+0800,
      three below U+10000 and four above; the leading octet announces the
      length and each continuation octet carries six bits. */
  function EncodeChar(c: char): (bs: seq<byte>)
    ensures 1 <= |bs| <= 4
    ensures |bs| == 1 <==> c as int < 0x80
    ensures |bs| == 1 ==> bs[0] == c as int
    ensures forall k :: 1 <= k < |bs| ==> IsContinuation(bs[k])
  {
    var x := c as int;
    if x < 0x80 then [x]
    else if x < 0x800 then [0xC0 + x / 0x40, 0x80 + x % 0x40]
    else if x < 0x1_0000 then [0xE0 + x / 0x1000, 0x80 + x / 0x40 % 0x40, 0x80 + x % 0x40]
    else [0xF0 + x / 0x4_0000, 0x80 + x / 0x1000 % 0x40, 0x80 + x / 0x40 % 0x40, 0x80 + x % 0x40]
  }

  /** The octets of a string: the encodings of its characters, in order. */
  function Encode(s: string): (bs: seq<byte>)
    ensures |s| <= |bs| <= 4 * |s|
  {
    if |s| == 0 then [] else EncodeChar(s[0]) + Encode(s[1..])
  }

  /** Reads the character at the start of `bs` and the number of octets it
      takes, following the syntax of section 4 of RFC 3629: None for a stray
      continuation octet, a truncated sequence, an overlong form, a
      surrogate or a value above U+10FFFF. */
  function DecodeChar(bs: seq<byte>): (r: Option<(char, nat)>)
    ensures r.Some? ==> 1 <= r.value.1 <= |bs| && r.value.1 <= 4
  {
    if |bs| == 0 then None
    else if bs[0] < 0x80 then Some((bs[0] as char, 1))
    else if 0xC2 <= bs[0] < 0xE0 && |bs| >= 2 && IsContinuation(bs[1]) then
      Some((Join2(bs[0], bs[1]) as char, 2))
    else if 0xE0 <= bs[0] < 0xF0 && |bs| >= 3 && IsContinuation(bs[1]) && IsContinuation(bs[2]) then
      var x := Join3(bs[0], bs[1], bs[2]);
      if 0x800 <= x && !(0xD800 <= x < 0xE000) then Some((x as char, 3)) else None
    else if 0xF0 <= bs[0] < 0xF5 && |bs| >= 4 && IsContinuation(bs[1]) && IsContinuation(bs[2]) && IsContinuation(bs[3]) then
      var x := Join4(bs[0], bs[1], bs[2], bs[3]);
      if 0x1_0000 <= x < 0x11_0000 then Some((x as char, 4)) else None
    else None
  }

  /** The code point a two-octet sequence carries: 5 + 6 bits. */
  function Join2(b0: byte, b1: byte): (x: int)
    requires 0xC2 <= b0 < 0xE0 && IsContinuation(b1)
    ensures 0x80 <= x < 0x800
  {
    (b0 as int - 0xC0) * 0x40 + (b1 as int - 0x80)
  }

  /** The code point a three-octet sequence carries: 4 + 6 + 6 bits. */
  function Join3(b0: byte, b1: byte, b2: byte): (x: int)
    requires 0xE0 <= b0 < 0xF0 && IsContinuation(b1) && IsContinuation(b2)
    ensures 0 <= x < 0x1_0000
  {
    (b0 as int - 0xE0) * 0x1000 + (b1 as int - 0x80) * 0x40 + (b2 as int - 0x80)
  }

  /** The code point a four-octet sequence carries: 3 + 6 + 6 + 6 bits. */
  function Join4(b0: byte, b1: byte, b2: byte, b3: byte): (x: int)
    requires 0xF0 <= b0 < 0xF5 && IsContinuation(b1) && IsContinuation(b2) && IsContinuation(b3)
    ensures 0 <= x < 0x14_0000
  {
    (b0 as int - 0xF0) * 0x4_0000 + (b1 as int - 0x80) * 0x1000 + (b2 as int - 0x80) * 0x40 + (b3 as int - 0x80)
  }

  /** Decodes UTF-8 octets; None unless they are a well-formed sequence. */
  function Decode(bs: seq<byte>): Option<string>
    decreases |bs|
  {
    if |bs| == 0 then Some([])
    else
      match DecodeChar(bs)
      case None => None
      case Some(r) =>
        match Decode(bs[r.1..])
        case None => None
        case Some(rest) => Some([r.0] + rest)
  }

  /** The two-octet form reads back as its character. */
  lemma DecodeEncodeChar2(c: char, rest: seq<byte>)
    requires 0x80 <= c as int < 0x800
    ensures DecodeChar(EncodeChar(c) + rest) == Some((c, 2))
  {
    var x := c as int;
    assert (x / 0x40) * 0x40 + x % 0x40 == x;
  }

  /** The three-octet form reads back as its character. */
  lemma DecodeEncodeChar3(c: char, rest: seq<byte>)
    requires 0x800 <= c as int < 0x1_0000
    ensures DecodeChar(EncodeChar(c) + rest) == Some((c, 3))
  {
    var x := c as int;
    assert x / 0x1000 * 0x1000 + x / 0x40 % 0x40 * 0x40 + x % 0x40 == x;
  }

  /** The four-octet form reads back as its character. */
  lemma DecodeEncodeChar4(c: char, rest: seq<byte>)
    requires 0x1_0000 <= c as int
    ensures DecodeChar(EncodeChar(c) + rest) == Some((c, 4))
  {
    var x := c as int;
    assert x / 0x4_0000 * 0x4_0000 + x / 0x1000 % 0x40 * 0x1000 + x / 0x40 % 0x40 * 0x40 + x % 0x40 == x;
  }

  /** Any character's encoding reads back as that character, whatever
      follows it. */
  lemma DecodeEncodeChar(c: char, rest: seq<byte>)
    ensures DecodeChar(EncodeChar(c) + rest) == Some((c, |EncodeChar(c)|))
  {
    if 0x1_0000 <= c as int {
      DecodeEncodeChar4(c, rest);
    } else if 0x800 <= c as int {
      DecodeEncodeChar3(c, rest);
    } else if 0x80 <= c as int {
      DecodeEncodeChar2(c, rest);
    }
  }

  /** Decoding the encoding of a string gives the string back. */
  lemma {:induction false} DecodeEncode(s: string)
    ensures Decode(Encode(s)) == Some(s)
  {
    if |s| > 0 {
      var head, tail := EncodeChar(s[0]), Encode(s[1..]);
      DecodeEncodeChar(s[0], tail);
      DecodeEncode(s[1..]);
      assert (head + tail)[|head|..] == tail;
      assert s == [s[0]] + s[1..];
    }
  }

  /** Distinct strings have distinct encodings, so the derived key tells
      apart secrets and hints that differ in any character. */
  lemma EncodeInjective(s: string, t: string)
    requires Encode(s) == Encode(t)
    ensures s == t
  {
    DecodeEncode(s);
    DecodeEncode(t);
  }

  /** Splitting the code point of a two-octet sequence gives its octets. */
  lemma SplitJoin2(b0: byte, b1: byte)
    requires 0xC2 <= b0 < 0xE0 && IsContinuation(b1)
    ensures var x := Join2(b0, b1); 0xC0 + x / 0x40 == b0 && 0x80 + x % 0x40 == b1
  {
  }

  /** Splitting the code point of a three-octet sequence gives its octets. */
  lemma SplitJoin3(b0: byte, b1: byte, b2: byte)
    requires 0xE0 <= b0 < 0xF0 && IsContinuation(b1) && IsContinuation(b2)
    ensures var x := Join3(b0, b1, b2);
      0xE0 + x / 0x1000 == b0 && 0x80 + x / 0x40 % 0x40 == b1 && 0x80 + x % 0x40 == b2
  {
  }

  /** Splitting the code point of a four-octet sequence gives its octets. */
  lemma SplitJoin4(b0: byte, b1: byte, b2: byte, b3: byte)
    requires 0xF0 <= b0 < 0xF5 && IsContinuation(b1) && IsContinuation(b2) && IsContinuation(b3)
    ensures var x := Join4(b0, b1, b2, b3);
      0xF0 + x / 0x4_0000 == b0 && 0x80 + x / 0x1000 % 0x40 == b1 &&
      0x80 + x / 0x40 % 0x40 == b2 && 0x80 + x % 0x40 == b3
  {
    var x := Join4(b0, b1, b2, b3);
    var t0, t1, t2, t3 := b0 as int - 0xF0, b1 as int - 0x80, b2 as int - 0x80, b3 as int - 0x80;
    DivMod(t0, t1 * 0x1000 + t2 * 0x40 + t3, 0x4_0000);
    DivMod(t0 * 0x40 + t1, t2 * 0x40 + t3, 0x1000);
    DivMod(t0 * 0x1000 + t1 * 0x40 + t2, t3, 0x40);
    DivMod(t0, t1, 0x40);
    DivMod(t0 * 0x40 + t1, t2, 0x40);
  }

  /** Division of q * d + r by d, for a remainder r below d. */
  lemma DivMod(q: int, r: int, d: int)
    requires d == 0x40 || d == 0x1000 || d == 0x4_0000
    requires 0 <= r < d
    ensures (q * d + r) / d == q && (q * d + r) % d == r
  {
    if d == 0x40 {
    } else if d == 0x1000 {
    } else {
    }
  }

  /** A character read from octets is encoded by exactly those octets. */
  lemma EncodeDecodeChar(bs: seq<byte>, c: char, n: nat)
    requires DecodeChar(bs) == Some((c, n))
    ensures EncodeChar(c) == bs[..n]
  {
    if bs[0] < 0x80 {
    } else if n == 2 {
      SplitJoin2(bs[0], bs[1]);
    } else if n == 3 {
      SplitJoin3(bs[0], bs[1], bs[2]);
    } else {
      SplitJoin4(bs[0], bs[1], bs[2], bs[3]);
    }
  }

  /** Decoding reads a first character, then decodes what follows it. */
  lemma DecodeStep(bs: seq<byte>, s: string)
    requires |bs| > 0 && Decode(bs) == Some(s)
    ensures DecodeChar(bs).Some?
    ensures var (c, n) := DecodeChar(bs).value;
      Decode(bs[n..]).Some? && s == [c] + Decode(bs[n..]).value
  {
  }

  /** Octets that decode are the encoding of what they decode to: the
      decoder accepts exactly the encoder's output. */
  lemma {:induction false} EncodeDecode(bs: seq<byte>, s: string)
    requires Decode(bs) == Some(s)
    ensures Encode(s) == bs
    decreases |bs|
  {
    if |bs| > 0 {
      DecodeStep(bs, s);
      var (c, n) := DecodeChar(bs).value;
      var rest := Decode(bs[n..]).value;
      EncodeDecodeChar(bs, c, n);
      EncodeDecode(bs[n..], rest);
      assert s[0] == c && s[1..] == rest;
      assert bs == bs[..n] + bs[n..];
    }
  }

  /** A string of ASCII characters is encoded octet for octet. */
  lemma {:induction false} EncodeAscii(s: string)
    requires forall k :: 0 <= k < |s| ==> s[k] as int < 0x80
    ensures |Encode(s)| == |s|
    ensures forall k :: 0 <= k < |s| ==> Encode(s)[k] == s[k] as int
  {
    if |s| > 0 {
      EncodeAscii(s[1..]);
      assert forall k :: 1 <= k < |s| ==> Encode(s)[k] == Encode(s[1..])[k - 1];
    }
  }
}
