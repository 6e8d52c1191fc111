/** The enum `PA55.HMACHashFunction` and the digest each constant selects
    in `generatePBKDF2Password`. */
module HashFunctions {
  import opened Common

  /** The acceptable HMAC hash functions, in declaration order. */
  datatype HashFunction = SHA1 | SHA256 | SHA512

  /** `ordinal()`: the position of a constant in its declaration. */
  function Ordinal(h: HashFunction): nat
  {
    match h
    case SHA1 => 0
    case SHA256 => 1
    case SHA512 => 2
  }

  /** `HMACHashFunction.values()`: every constant, each at its ordinal. */
  function Values(): (vs: seq<HashFunction>)
    ensures |vs| == 3
    ensures forall h :: Ordinal(h) < |vs| && vs[Ordinal(h)] == h
    ensures forall i, j :: 0 <= i < j < |vs| ==> vs[i] != vs[j]
  {
    [SHA1, SHA256, SHA512]
  }

  /** Output size in octets of the digest the switch in
      `generatePBKDF2Password` selects: SHA-1, SHA-256 or SHA-512. */
  function DigestLength(h: HashFunction): (n: nat)
    ensures n == 20 || n == 32 || n == 64
  {
    match h
    case SHA1 => 20
    case SHA256 => 32
    case SHA512 => 64
  }

  /** Every constant selects a digest of its own size: the dispatch is a
      one-to-one map from the enum onto {20, 32, 64}. */
  lemma DigestDispatch(h: HashFunction, g: HashFunction)
    ensures DigestLength(h) == DigestLength(g) <==> h == g
    ensures DigestLength(h) == 20 <==> h == SHA1
    ensures DigestLength(h) == 32 <==> h == SHA256
    ensures DigestLength(h) == 64 <==> h == SHA512
  {
  }

  /** HMAC-SHA-x (RFC 2104) keyed with its second argument and applied to
      its third. Its internals are library code and stay abstract; all the
      model relies on is that the MAC has the size of the selected digest. */
  type Prf = f: (HashFunction, seq<byte>, seq<byte>) -> seq<byte>
    | forall h, key, msg :: |f(h, key, msg)| == DigestLength(h)
    witness (h: HashFunction, key: seq<byte>, msg: seq<byte>) => seq(DigestLength(h), _ => 0)
}
