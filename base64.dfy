/** The standard Base64 encoding of section 4 of RFC 4648, single line and
    padded with '=': what `Base64.encodeBase64String` produces from the
    derived key. The decoder is the exact inverse and accepts only the
    canonical text the encoder can produce. */
module Base64 {
  import opened Common

  /** The 64 characters of Table 1: A-Z, a-z, 0-9, '+' and '/'. */
  predicate IsAlphabetChar(c: char)
  {
    'A' <= c <= 'Z' || 'a' <= c <= 'z' || '0' <= c <= '9' || c == '+' || c == '/'
  }

  /** The pad character. */
  const Pad: char := '='

  /** Table 1: the character that encodes a 6-bit value. */
  function CharOf(v: nat): (c: char)
    requires v < 64
    ensures IsAlphabetChar(c)
  {
    if v < 26 then (v + 'A' as int) as char
    else if v < 52 then (v - 26 + 'a' as int) as char
    else if v < 62 then (v - 52 + '0' as int) as char
    else if v == 62 then '+'
    else '/'
  }

  /** Table 1 read backwards: the 6-bit value of an alphabet character,
      None for any other character (the pad included). */
  function ValueOf(c: char): (r: Option<nat>)
    ensures r.Some? <==> IsAlphabetChar(c)
    ensures r.Some? ==> r.value < 64 && CharOf(r.value) == c
  {
    if 'A' <= c <= 'Z' then Some(c as int - 'A' as int)
    else if 'a' <= c <= 'z' then Some(c as int - 'a' as int + 26)
    else if '0' <= c <= '9' then Some(c as int - '0' as int + 52)
    else if c == '+' then Some(62)
    else if c == '/' then Some(63)
    else None
  }

  /** Distinct values have distinct characters. */
  lemma ValueOfCharOf(v: nat)
    requires v < 64
    ensures ValueOf(CharOf(v)) == Some(v)
  {
  }

  /** Number of pad characters at the end of the encoding of n octets. */
  function PadCount(n: nat): nat
  {
    (3 - n % 3) % 3
  }

  /** Cuts three octets (24 bits) into four 6-bit values, high bits first. */
  function Split(g: seq<byte>): (vs: seq<nat>)
    requires |g| == 3
    ensures |vs| == 4 && forall k :: 0 <= k < 4 ==> vs[k] < 64
  {
    [g[0] / 4, g[0] % 4 * 16 + g[1] / 16, g[1] % 16 * 4 + g[2] / 64, g[2] % 64]
  }

  /** Joins four 6-bit values into three octets. */
  function Join(vs: seq<nat>): (g: seq<byte>)
    requires |vs| == 4 && forall k :: 0 <= k < 4 ==> vs[k] < 64
    ensures |g| == 3
  {
    [vs[0] * 4 + vs[1] / 16, vs[1] % 16 * 16 + vs[2] / 4, vs[2] % 4 * 64 + vs[3]]
  }

  /** Splitting then joining gives the octets back. */
  lemma JoinSplit(g: seq<byte>)
    requires |g| == 3
    ensures Join(Split(g)) == g
  {
    var vs := Split(g);
    assert vs[0] * 4 + vs[1] / 16 == g[0];
    assert vs[1] % 16 * 16 + vs[2] / 4 == g[1];
    assert vs[2] % 4 * 64 + vs[3] == g[2];
  }

  /** Joining then splitting gives the values back. */
  lemma SplitJoin(vs: seq<nat>)
    requires |vs| == 4 && forall k :: 0 <= k < 4 ==> vs[k] < 64
    ensures Split(Join(vs)) == vs
  {
    var g := Join(vs);
    assert g[0] / 4 == vs[0];
    assert g[0] % 4 * 16 + g[1] / 16 == vs[1];
    assert g[1] % 16 * 4 + g[2] / 64 == vs[2];
    assert g[2] % 64 == vs[3];
  }

  /** The characters of a sequence of 6-bit values. */
  function Chars(vs: seq<nat>): (s: string)
    requires forall k :: 0 <= k < |vs| ==> vs[k] < 64
    ensures |s| == |vs| && forall k :: 0 <= k < |vs| ==> IsAlphabetChar(s[k])
  {
    seq(|vs|, k requires 0 <= k < |vs| => CharOf(vs[k]))
  }

  /** Three octets as four characters: each carries six of their 24 bits. */
  function EncodeGroup(g: seq<byte>): (s: string)
    requires |g| == 3
    ensures |s| == 4 && forall k :: 0 <= k < 4 ==> IsAlphabetChar(s[k])
  {
    Chars(Split(g))
  }

  /** A final pair of octets: 16 bits zero-filled to 18, then one pad. */
  function EncodePair(g: seq<byte>): (s: string)
    requires |g| == 2
    ensures |s| == 4 && s[3] == Pad && forall k :: 0 <= k < 3 ==> IsAlphabetChar(s[k])
  {
    Chars(Split(g + [0])[..3]) + [Pad]
  }

  /** A final single octet: 8 bits zero-filled to 12, then two pads. */
  function EncodeSingle(g: seq<byte>): (s: string)
    requires |g| == 1
    ensures |s| == 4 && s[2] == Pad && s[3] == Pad && IsAlphabetChar(s[0]) && IsAlphabetChar(s[1])
  {
    Chars(Split(g + [0, 0])[..2]) + [Pad, Pad]
  }

  /** Encodes octets three at a time; a final group of one or two octets
      is zero-filled and padded with '='. */
  function Encode(bs: seq<byte>): (s: string)
    ensures |s| == 4 * ((|bs| + 2) / 3)
    decreases |bs|
  {
    if |bs| == 0 then []
    else if |bs| == 1 then EncodeSingle(bs)
    else if |bs| == 2 then EncodePair(bs)
    else EncodeGroup(bs[..3]) + Encode(bs[3..])
  }

  /** Decodes one group of four characters; `last` says whether padding
      may end it. Bits the padding leaves unused must be zero. */
  function DecodeGroup(c0: char, c1: char, c2: char, c3: char, last: bool): Option<seq<byte>>
  {
    match (ValueOf(c0), ValueOf(c1), ValueOf(c2), ValueOf(c3))
    case (Some(v0), Some(v1), Some(v2), Some(v3)) =>
      Some(Join([v0, v1, v2, v3]))
    case (Some(v0), Some(v1), Some(v2), None) =>
      if last && c3 == Pad && v2 % 4 == 0 then Some(Join([v0, v1, v2, 0])[..2]) else None
    case (Some(v0), Some(v1), None, None) =>
      if last && c2 == Pad && c3 == Pad && v1 % 16 == 0 then Some(Join([v0, v1, 0, 0])[..1]) else None
    case _ => None
  }

  /** Decodes Base64 text; None unless it is the encoding of some octets. */
  function Decode(s: string): Option<seq<byte>>
    decreases |s|
  {
    if |s| == 0 then Some([])
    else if |s| < 4 then None
    else
      match DecodeGroup(s[0], s[1], s[2], s[3], |s| == 4)
      case None => None
      case Some(group) =>
        match Decode(s[4..])
        case None => None
        case Some(rest) => Some(group + rest)
  }

  /** Characters are the encoding of their own values. */
  lemma CharsOfValues(cs: string, vs: seq<nat>)
    requires |cs| == |vs|
    requires forall k :: 0 <= k < |cs| ==> ValueOf(cs[k]) == Some(vs[k])
    ensures (forall k :: 0 <= k < |vs| ==> vs[k] < 64) && Chars(vs) == cs
  {
  }

  /** Values are the values of their own characters. */
  lemma ValuesOfChars(vs: seq<nat>)
    requires forall k :: 0 <= k < |vs| ==> vs[k] < 64
    ensures forall k :: 0 <= k < |vs| ==> ValueOf(Chars(vs)[k]) == Some(vs[k])
  {
    forall k | 0 <= k < |vs| {
      ValueOfCharOf(vs[k]);
    }
  }

  /** A full group decodes to its three octets, final or not. */
  lemma DecodeEncodeGroup(g: seq<byte>, last: bool)
    requires |g| == 3
    ensures var s := EncodeGroup(g); DecodeGroup(s[0], s[1], s[2], s[3], last) == Some(g)
  {
    var vs := Split(g);
    ValuesOfChars(vs);
    assert [vs[0], vs[1], vs[2], vs[3]] == vs;
    JoinSplit(g);
  }

  /** A final pair decodes to its two octets. */
  lemma DecodeEncodePair(g: seq<byte>)
    requires |g| == 2
    ensures var s := EncodePair(g); DecodeGroup(s[0], s[1], s[2], s[3], true) == Some(g)
  {
    var s, vs := EncodePair(g), Split(g + [0]);
    ValuesOfChars(vs[..3]);
    assert ValueOf(s[0]) == Some(vs[0]) && ValueOf(s[1]) == Some(vs[1]) && ValueOf(s[2]) == Some(vs[2]);
    assert ValueOf(s[3]) == None && vs[2] % 4 == 0;
    assert Join([vs[0], vs[1], vs[2], 0]) == g + [0] by {
      assert [vs[0], vs[1], vs[2], 0] == vs;
      JoinSplit(g + [0]);
    }
    assert (g + [0])[..2] == g;
  }

  /** A final single octet decodes to itself. */
  lemma DecodeEncodeSingle(g: seq<byte>)
    requires |g| == 1
    ensures var s := EncodeSingle(g); DecodeGroup(s[0], s[1], s[2], s[3], true) == Some(g)
  {
    var s, vs := EncodeSingle(g), Split(g + [0, 0]);
    ValuesOfChars(vs[..2]);
    assert ValueOf(s[0]) == Some(vs[0]) && ValueOf(s[1]) == Some(vs[1]);
    assert ValueOf(s[2]) == None && ValueOf(s[3]) == None && vs[1] % 16 == 0;
    assert Join([vs[0], vs[1], 0, 0]) == g + [0, 0] by {
      assert [vs[0], vs[1], 0, 0] == vs;
      JoinSplit(g + [0, 0]);
    }
    assert (g + [0, 0])[..1] == g;
  }

  /** Four alphabet characters are the encoding of what they decode to. */
  lemma EncodeDecodeFull(c0: char, c1: char, c2: char, c3: char, v0: nat, v1: nat, v2: nat, v3: nat)
    requires ValueOf(c0) == Some(v0) && ValueOf(c1) == Some(v1) && ValueOf(c2) == Some(v2) && ValueOf(c3) == Some(v3)
    ensures EncodeGroup(Join([v0, v1, v2, v3])) == [c0, c1, c2, c3]
  {
    SplitJoin([v0, v1, v2, v3]);
    CharsOfValues([c0, c1, c2, c3], [v0, v1, v2, v3]);
  }

  /** Three alphabet characters and a pad are the encoding of the final
      pair of octets they decode to. */
  lemma EncodeDecodePair(c0: char, c1: char, c2: char, v0: nat, v1: nat, v2: nat)
    requires ValueOf(c0) == Some(v0) && ValueOf(c1) == Some(v1) && ValueOf(c2) == Some(v2) && v2 % 4 == 0
    ensures EncodePair(Join([v0, v1, v2, 0])[..2]) == [c0, c1, c2, Pad]
  {
    var g := Join([v0, v1, v2, 0]);
    assert g[2] == 0;
    assert g[..2] + [0] == g;
    SplitJoin([v0, v1, v2, 0]);
    CharsOfValues([c0, c1, c2], [v0, v1, v2]);
    assert [v0, v1, v2, 0][..3] == [v0, v1, v2];
  }

  /** Two alphabet characters and two pads are the encoding of the final
      octet they decode to. */
  lemma EncodeDecodeSingle(c0: char, c1: char, v0: nat, v1: nat)
    requires ValueOf(c0) == Some(v0) && ValueOf(c1) == Some(v1) && v1 % 16 == 0
    ensures EncodeSingle(Join([v0, v1, 0, 0])[..1]) == [c0, c1, Pad, Pad]
  {
    var g := Join([v0, v1, 0, 0]);
    assert g[1] == 0 && g[2] == 0;
    assert g[..1] + [0, 0] == g;
    SplitJoin([v0, v1, 0, 0]);
    CharsOfValues([c0, c1], [v0, v1]);
    assert [v0, v1, 0, 0][..2] == [v0, v1];
  }

  /** A group that decodes is the encoding of what it decodes to. */
  lemma EncodeDecodeGroup(c0: char, c1: char, c2: char, c3: char, last: bool, g: seq<byte>)
    requires DecodeGroup(c0, c1, c2, c3, last) == Some(g)
    ensures 1 <= |g| <= 3
    ensures |g| == 3 ==> EncodeGroup(g) == [c0, c1, c2, c3]
    ensures |g| == 2 ==> last && EncodePair(g) == [c0, c1, c2, c3]
    ensures |g| == 1 ==> last && EncodeSingle(g) == [c0, c1, c2, c3]
  {
    match (ValueOf(c0), ValueOf(c1), ValueOf(c2), ValueOf(c3))
    case (Some(v0), Some(v1), Some(v2), Some(v3)) =>
      EncodeDecodeFull(c0, c1, c2, c3, v0, v1, v2, v3);
    case (Some(v0), Some(v1), Some(v2), None) =>
      EncodeDecodePair(c0, c1, c2, v0, v1, v2);
    case (Some(v0), Some(v1), None, None) =>
      EncodeDecodeSingle(c0, c1, v0, v1);
  }

  /** Decoding the encoding gives back the octets. */
  lemma {:induction false} DecodeEncode(bs: seq<byte>)
    ensures Decode(Encode(bs)) == Some(bs)
    decreases |bs|
  {
    if |bs| == 1 {
      DecodeEncodeSingle(bs);
      assert Encode(bs)[4..] == [];
    } else if |bs| == 2 {
      var s := Encode(bs);
      assert s == EncodePair(bs);
      DecodeEncodePair(bs);
      assert DecodeGroup(s[0], s[1], s[2], s[3], |s| == 4) == Some(bs);
      assert Decode(s[4..]) == Some([]);
      assert bs + [] == bs;
    } else if |bs| >= 3 {
      var s, rest := Encode(bs), Encode(bs[3..]);
      DecodeEncodeGroup(bs[..3], |s| == 4);
      DecodeEncode(bs[3..]);
      assert s[..4] == EncodeGroup(bs[..3]) && s[4..] == rest;
      assert bs == bs[..3] + bs[3..];
    }
  }

  /** Text that decodes is the encoding of what it decodes to: no two
      texts decode to the same octets. */
  lemma {:induction false} EncodeDecode(s: string, bs: seq<byte>)
    requires Decode(s) == Some(bs)
    ensures Encode(bs) == s
    decreases |s|
  {
    if |s| > 0 {
      var group := DecodeGroup(s[0], s[1], s[2], s[3], |s| == 4).value;
      var rest := Decode(s[4..]).value;
      assert bs == group + rest;
      EncodeDecodeGroup(s[0], s[1], s[2], s[3], |s| == 4, group);
      EncodeDecode(s[4..], rest);
      assert s == [s[0], s[1], s[2], s[3]] + s[4..];
      if |group| == 3 {
        assert bs[..3] == group && bs[3..] == rest;
      } else {
        assert |s| == 4 && rest == [] && bs == group;
      }
    }
  }

  /** The encoding is alphabet characters followed by PadCount(|bs|) pads. */
  lemma {:induction false} EncodeAlphabet(bs: seq<byte>)
    ensures PadCount(|bs|) <= 2
    ensures forall k :: 0 <= k < |Encode(bs)| - PadCount(|bs|) ==> IsAlphabetChar(Encode(bs)[k])
    ensures forall k :: |Encode(bs)| - PadCount(|bs|) <= k < |Encode(bs)| ==> Encode(bs)[k] == Pad
    decreases |bs|
  {
    var s := Encode(bs);
    if |bs| == 1 {
      assert s == EncodeSingle(bs);
    } else if |bs| == 2 {
      assert s == EncodePair(bs);
    } else if |bs| >= 3 {
      var rest := Encode(bs[3..]);
      EncodeAlphabet(bs[3..]);
      PadCountStep(|bs|);
      assert s == EncodeGroup(bs[..3]) + rest;
      forall k | 4 <= k < |s|
        ensures s[k] == rest[k - 4]
      {
      }
    }
  }

  /** Three more octets add no padding. */
  lemma PadCountStep(n: nat)
    requires n >= 3
    ensures PadCount(n) == PadCount(n - 3) <= 2
  {
  }
}
