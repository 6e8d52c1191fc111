/** PBKDF2 as section 5.2 of RFC 8018 (PKCS #5 v2.1) defines it, with an
    HMAC as the pseudorandom function: the computation behind
    `PKCS5S2ParametersGenerator` in `generatePBKDF2Password`.

    The functions state the standard's definition; the method
    `GenerateDerivedKey` is the generator's loop over an output buffer and
    is proved to compute it. */
module Pbkdf2 {
  import opened Common
  import opened HashFunctions

  /** INT(i): the block index as four octets, most significant first. */
  function Int32BE(i: nat): (r: seq<byte>)
    requires i < 0x1_0000_0000
    ensures |r| == 4
    ensures (r[0] as int) * 0x100_0000 + (r[1] as int) * 0x1_0000 + (r[2] as int) * 0x100 + (r[3] as int) == i
  {
    var q1 := i / 0x100;
    var q2 := q1 / 0x100;
    [q2 / 0x100, q2 % 0x100, q1 % 0x100, i % 0x100]
  }

  /** Octet-wise exclusive or of two strings of equal length. */
  function Xor(a: seq<byte>, b: seq<byte>): (r: seq<byte>)
    requires |a| == |b|
    ensures |r| == |a|
  {
    seq(|a|, k requires 0 <= k < |a| => XorByte(a[k], b[k]))
  }

  /** U_j of block i: U_1 = PRF(P, S || INT(i)) and U_j = PRF(P, U_{j-1}). */
  function U(prf: Prf, h: HashFunction, password: seq<byte>, salt: seq<byte>, i: nat, j: nat): (u: seq<byte>)
    requires 1 <= i < 0x1_0000_0000 && 1 <= j
    ensures |u| == DigestLength(h)
  {
    if j == 1 then prf(h, password, salt + Int32BE(i))
    else prf(h, password, U(prf, h, password, salt, i, j - 1))
  }

  /** F(P, S, c, i) = U_1 xor U_2 xor ... xor U_c: the block T_i. */
  function F(prf: Prf, h: HashFunction, password: seq<byte>, salt: seq<byte>, c: nat, i: nat): (t: seq<byte>)
    requires 1 <= i < 0x1_0000_0000 && 1 <= c
    ensures |t| == DigestLength(h)
  {
    if c == 1 then U(prf, h, password, salt, i, 1)
    else Xor(F(prf, h, password, salt, c - 1, i), U(prf, h, password, salt, i, c))
  }

  /** T_1 .. T_n, the first n blocks. */
  function BlockList(prf: Prf, h: HashFunction, password: seq<byte>, salt: seq<byte>, c: nat, n: nat): (ts: seq<seq<byte>>)
    requires 1 <= c && n < 0x1_0000_0000
    ensures |ts| == n && Uniform(ts, DigestLength(h))
  {
    seq(n, j requires 0 <= j < n => F(prf, h, password, salt, c, j + 1))
  }

  /** Every block has d octets. */
  predicate Uniform(ts: seq<seq<byte>>, d: nat)
  {
    forall j :: 0 <= j < |ts| ==> |ts[j]| == d
  }

  /** ts[0] || ts[1] || ... || ts[|ts| - 1]. */
  function Concat(ts: seq<seq<byte>>): seq<byte>
  {
    if |ts| == 0 then [] else Concat(ts[..|ts| - 1]) + ts[|ts| - 1]
  }

  /** T_1 || T_2 || ... || T_n. */
  function Blocks(prf: Prf, h: HashFunction, password: seq<byte>, salt: seq<byte>, c: nat, n: nat): seq<byte>
    requires 1 <= c && n < 0x1_0000_0000
  {
    Concat(BlockList(prf, h, password, salt, c, n))
  }

  /** l = CEIL(dkLen / hLen): the number of blocks the key needs. */
  function BlockCount(h: HashFunction, dkLen: nat): nat
  {
    (dkLen + DigestLength(h) - 1) / DigestLength(h)
  }

  /** l blocks hold dkLen octets and l - 1 do not; a key within the
      standard's limit needs fewer than 2^32 blocks. */
  lemma BlockCountBounds(h: HashFunction, dkLen: nat)
    ensures (BlockCount(h, dkLen) - 1) * DigestLength(h) < dkLen <= BlockCount(h, dkLen) * DigestLength(h)
    ensures dkLen <= MaxDerivedKeyLength(h) ==> BlockCount(h, dkLen) < 0x1_0000_0000
  {
    match h
    case SHA1 =>
    case SHA256 =>
    case SHA512 =>
  }

  /** The longest key the standard permits: (2^32 - 1) * hLen octets. */
  function MaxDerivedKeyLength(h: HashFunction): nat
  {
    (0x1_0000_0000 - 1) * DigestLength(h)
  }

  /** DK: the first dkLen octets of T_1 || ... || T_l. */
  function DeriveKey(prf: Prf, h: HashFunction, password: seq<byte>, salt: seq<byte>, c: nat, dkLen: nat): (dk: seq<byte>)
    requires 1 <= c && dkLen <= MaxDerivedKeyLength(h)
    ensures |dk| == dkLen
  {
    var l := BlockCount(h, dkLen);
    BlockCountBounds(h, dkLen);
    BlocksLength(prf, h, password, salt, c, l);
    Blocks(prf, h, password, salt, c, l)[..dkLen]
  }

  /** n blocks of d octets each make n * d octets. */
  lemma {:induction false} ConcatLength(ts: seq<seq<byte>>, d: nat)
    requires Uniform(ts, d)
    ensures |Concat(ts)| == |ts| * d
  {
    if |ts| > 0 {
      ConcatLength(ts[..|ts| - 1], d);
    }
  }

  /** The first m blocks concatenated are a prefix of all of them. */
  lemma {:induction false} ConcatPrefix(ts: seq<seq<byte>>, m: nat)
    requires m <= |ts|
    ensures |Concat(ts[..m])| <= |Concat(ts)|
    ensures Concat(ts[..m]) == Concat(ts)[..|Concat(ts[..m])|]
  {
    if m < |ts| {
      var front := ts[..|ts| - 1];
      assert front[..m] == ts[..m];
      ConcatPrefix(front, m);
      assert Concat(ts) == Concat(front) + ts[|ts| - 1];
    } else {
      assert ts[..m] == ts;
    }
  }

  /** Octet q * d + r of the concatenation is octet r of block q. */
  lemma {:induction false} ConcatAt(ts: seq<seq<byte>>, d: nat, q: nat, r: nat)
    requires Uniform(ts, d) && q < |ts| && r < d
    ensures q * d + r < |Concat(ts)|
    ensures Concat(ts)[q * d + r] == ts[q][r]
  {
    var n := |ts|;
    var front := ts[..n - 1];
    ConcatLength(front, d);
    ConcatLength(ts, d);
    assert Concat(ts) == Concat(front) + ts[n - 1];
    if q < n - 1 {
      ConcatAt(front, d, q, r);
    }
  }

  /** n blocks of hLen octets each. */
  lemma BlocksLength(prf: Prf, h: HashFunction, password: seq<byte>, salt: seq<byte>, c: nat, n: nat)
    requires 1 <= c && n < 0x1_0000_0000
    ensures |Blocks(prf, h, password, salt, c, n)| == n * DigestLength(h)
  {
    ConcatLength(BlockList(prf, h, password, salt, c, n), DigestLength(h));
  }

  /** Fewer blocks are a prefix of more blocks. */
  lemma BlocksPrefix(prf: Prf, h: HashFunction, password: seq<byte>, salt: seq<byte>, c: nat, n: nat, m: nat)
    requires 1 <= c && n <= m < 0x1_0000_0000
    ensures |Blocks(prf, h, password, salt, c, n)| <= |Blocks(prf, h, password, salt, c, m)|
    ensures Blocks(prf, h, password, salt, c, n)
         == Blocks(prf, h, password, salt, c, m)[..|Blocks(prf, h, password, salt, c, n)|]
  {
    var ts := BlockList(prf, h, password, salt, c, m);
    assert ts[..n] == BlockList(prf, h, password, salt, c, n);
    ConcatPrefix(ts, n);
  }

  /** More octets requested never need fewer blocks. */
  lemma BlockCountMonotone(h: HashFunction, dkLen: nat, dkLen': nat)
    requires dkLen <= dkLen'
    ensures BlockCount(h, dkLen) <= BlockCount(h, dkLen')
  {
  }

  /** A key of dkLen octets is the first dkLen octets of any longer key
      derived from the same password, salt, count and hash function. */
  lemma DeriveKeyPrefix(prf: Prf, h: HashFunction, password: seq<byte>, salt: seq<byte>, c: nat, dkLen: nat, dkLen': nat)
    requires 1 <= c && dkLen <= dkLen' <= MaxDerivedKeyLength(h)
    ensures DeriveKey(prf, h, password, salt, c, dkLen) == DeriveKey(prf, h, password, salt, c, dkLen')[..dkLen]
  {
    var l, l' := BlockCount(h, dkLen), BlockCount(h, dkLen');
    BlockCountMonotone(h, dkLen, dkLen');
    BlockCountBounds(h, dkLen);
    BlockCountBounds(h, dkLen');
    BlocksPrefix(prf, h, password, salt, c, l, l');
    BlocksLength(prf, h, password, salt, c, l);
  }

  /** q * hLen + r below l * hLen means block q exists: q < l. */
  lemma BlockIndexBound(h: HashFunction, q: nat, r: nat, l: nat)
    requires q * DigestLength(h) + r < l * DigestLength(h)
    ensures q < l
  {
    match h
    case SHA1 =>
    case SHA256 =>
    case SHA512 =>
  }

  /** Every octet of the derived key comes from its block: octet
      q * hLen + r is octet r of T_(q+1), whatever dkLen is. */
  lemma DeriveKeyAt(prf: Prf, h: HashFunction, password: seq<byte>, salt: seq<byte>, c: nat, dkLen: nat, q: nat, r: nat)
    requires 1 <= c && dkLen <= MaxDerivedKeyLength(h) && r < DigestLength(h) && q * DigestLength(h) + r < dkLen
    ensures q + 1 < 0x1_0000_0000
    ensures DeriveKey(prf, h, password, salt, c, dkLen)[q * DigestLength(h) + r] == F(prf, h, password, salt, c, q + 1)[r]
  {
    var l := BlockCount(h, dkLen);
    BlockCountBounds(h, dkLen);
    BlockIndexBound(h, q, r, l);
    ConcatAt(BlockList(prf, h, password, salt, c, l), DigestLength(h), q, r);
  }

  /** Appending block T_n to T_1 || ... || T_(n-1). */
  lemma BlocksSnoc(prf: Prf, h: HashFunction, password: seq<byte>, salt: seq<byte>, c: nat, n: nat)
    requires 1 <= c && 1 <= n < 0x1_0000_0000
    ensures Blocks(prf, h, password, salt, c, n)
         == Blocks(prf, h, password, salt, c, n - 1) + F(prf, h, password, salt, c, n)
  {
    assert BlockList(prf, h, password, salt, c, n)[..n - 1] == BlockList(prf, h, password, salt, c, n - 1);
  }

  /** Block T_i sits right after T_1 || ... || T_(i-1) inside T_1 || ... || T_l. */
  lemma BlockInPlace(prf: Prf, h: HashFunction, password: seq<byte>, salt: seq<byte>, c: nat, i: nat, l: nat)
    requires 1 <= c && 1 <= i <= l < 0x1_0000_0000
    ensures |Blocks(prf, h, password, salt, c, i - 1)| + DigestLength(h) == |Blocks(prf, h, password, salt, c, i)|
    ensures |Blocks(prf, h, password, salt, c, i)| <= |Blocks(prf, h, password, salt, c, l)|
    ensures forall k :: |Blocks(prf, h, password, salt, c, i - 1)| <= k < |Blocks(prf, h, password, salt, c, i)| ==>
              Blocks(prf, h, password, salt, c, l)[k] == F(prf, h, password, salt, c, i)[k - |Blocks(prf, h, password, salt, c, i - 1)|]
  {
    var front, block := Blocks(prf, h, password, salt, c, i - 1), F(prf, h, password, salt, c, i);
    var prefix, all := Blocks(prf, h, password, salt, c, i), Blocks(prf, h, password, salt, c, l);
    BlocksSnoc(prf, h, password, salt, c, i);
    BlocksPrefix(prf, h, password, salt, c, i, l);
    forall k | |front| <= k < |prefix|
      ensures all[k] == block[k - |front|]
    {
      assert all[k] == prefix[k];
    }
  }

  /** `PKCS5S2ParametersGenerator.generateDerivedKey` followed by the
      truncation to the requested size: a buffer of l * hLen octets is
      filled block by block and its first dkLen octets are the key. */
  method GenerateDerivedKey(prf: Prf, h: HashFunction, password: seq<byte>, salt: seq<byte>, c: nat, dkLen: nat)
    returns (dk: seq<byte>)
    requires 1 <= c && dkLen <= MaxDerivedKeyLength(h)
    ensures dk == DeriveKey(prf, h, password, salt, c, dkLen)
  {
    var l := BlockCount(h, dkLen);
    assert l < 0x1_0000_0000 by {
      BlockCountBounds(h, dkLen);
    }
    var out := new byte[l * DigestLength(h)];
    assert dkLen <= out.Length by {
      BlockCountBounds(h, dkLen);
    }
    FillBlocks(prf, h, password, salt, c, l, out);
    dk := out[..dkLen];
    assert dk == Blocks(prf, h, password, salt, c, l)[..dkLen];
  }

  /** The block loop of `generateDerivedKey`: T_1 .. T_l, written one
      after the other into a buffer of l * hLen octets. */
  method FillBlocks(prf: Prf, h: HashFunction, password: seq<byte>, salt: seq<byte>, c: nat, l: nat, out: array<byte>)
    requires 1 <= c && l < 0x1_0000_0000 && out.Length == l * DigestLength(h)
    modifies out
    ensures |Blocks(prf, h, password, salt, c, l)| == out.Length
    ensures forall k :: 0 <= k < out.Length ==> out[k] == Blocks(prf, h, password, salt, c, l)[k]
  {
    BlocksLength(prf, h, password, salt, c, l);
    var i: nat, pos: nat := 1, 0;
    while i <= l
      invariant 1 <= i <= l + 1
      invariant pos == |Blocks(prf, h, password, salt, c, i - 1)| <= out.Length
      invariant forall k :: 0 <= k < pos ==> out[k] == Blocks(prf, h, password, salt, c, l)[k]
    {
      WriteBlock(prf, h, password, salt, c, i, l, out, pos);
      i, pos := i + 1, pos + DigestLength(h);
    }
  }

  /** One turn of the block loop: T_i lands right after T_1 .. T_(i-1),
      which stay in place. */
  method WriteBlock(prf: Prf, h: HashFunction, password: seq<byte>, salt: seq<byte>, c: nat, i: nat, l: nat,
                    out: array<byte>, pos: nat)
    requires 1 <= c && 1 <= i <= l < 0x1_0000_0000
    requires pos == |Blocks(prf, h, password, salt, c, i - 1)| <= out.Length == |Blocks(prf, h, password, salt, c, l)|
    requires forall k :: 0 <= k < pos ==> out[k] == Blocks(prf, h, password, salt, c, l)[k]
    modifies out
    ensures pos + DigestLength(h) == |Blocks(prf, h, password, salt, c, i)| <= out.Length
    ensures forall k :: 0 <= k < pos + DigestLength(h) ==> out[k] == Blocks(prf, h, password, salt, c, l)[k]
  {
    BlockInPlace(prf, h, password, salt, c, i, l);
    ComputeBlock(prf, h, password, salt, c, i, out, pos);
  }

  /** `PKCS5S2ParametersGenerator.F`: writes T_i into out[off..off + hLen],
      starting from U_1 and XOR-ing each further U_j into place. */
  method ComputeBlock(prf: Prf, h: HashFunction, password: seq<byte>, salt: seq<byte>, c: nat, i: nat,
                      out: array<byte>, off: nat)
    requires 1 <= c && 1 <= i < 0x1_0000_0000 && off + DigestLength(h) <= out.Length
    modifies out
    ensures forall k :: 0 <= k < off ==> out[k] == old(out[k])
    ensures forall k :: off <= k < off + DigestLength(h) ==> out[k] == F(prf, h, password, salt, c, i)[k - off]
    ensures forall k :: off + DigestLength(h) <= k < out.Length ==> out[k] == old(out[k])
  {
    var hLen := DigestLength(h);
    var state := prf(h, password, salt + Int32BE(i));
    assert state == F(prf, h, password, salt, 1, i);
    CopyInto(out, off, state);
    var count := 1;
    while count < c
      invariant 1 <= count <= c
      invariant state == U(prf, h, password, salt, i, count)
      invariant forall k :: 0 <= k < off ==> out[k] == old(out[k])
      invariant forall j :: 0 <= j < hLen ==> out[off + j] == F(prf, h, password, salt, count, i)[j]
      invariant forall k :: off + hLen <= k < out.Length ==> out[k] == old(out[k])
    {
      state := prf(h, password, state);
      FStep(prf, h, password, salt, count, i);
      XorInto(out, off, state);
      count := count + 1;
    }
    forall k | off <= k < off + hLen
      ensures out[k] == F(prf, h, password, salt, c, i)[k - off]
    {
      assert out[off + (k - off)] == F(prf, h, password, salt, count, i)[k - off];
    }
  }

  /** `System.arraycopy(state, 0, out, off, state.length)`. */
  method CopyInto(out: array<byte>, off: nat, state: seq<byte>)
    requires off + |state| <= out.Length
    modifies out
    ensures forall k :: 0 <= k < off ==> out[k] == old(out[k])
    ensures forall j :: 0 <= j < |state| ==> out[off + j] == state[j]
    ensures forall k :: off + |state| <= k < out.Length ==> out[k] == old(out[k])
  {
    forall j | 0 <= j < |state| {
      out[off + j] := state[j];
    }
  }

  /** One more iteration: U_(c+1) is the PRF of U_c, and T_i grows by
      XOR-ing it in octet by octet. */
  lemma FStep(prf: Prf, h: HashFunction, password: seq<byte>, salt: seq<byte>, c: nat, i: nat)
    requires 1 <= c && 1 <= i < 0x1_0000_0000
    ensures U(prf, h, password, salt, i, c + 1) == prf(h, password, U(prf, h, password, salt, i, c))
    ensures forall j :: 0 <= j < DigestLength(h) ==>
      F(prf, h, password, salt, c + 1, i)[j] == XorByte(F(prf, h, password, salt, c, i)[j], U(prf, h, password, salt, i, c + 1)[j])
  {
  }

  /** out[off + j] ^= state[j] for each j: XORs `state` into the buffer. */
  method XorInto(out: array<byte>, off: nat, state: seq<byte>)
    requires off + |state| <= out.Length
    modifies out
    ensures forall k :: 0 <= k < off ==> out[k] == old(out[k])
    ensures forall j :: 0 <= j < |state| ==> out[off + j] == XorByte(old(out[off + j]), state[j])
    ensures forall k :: off + |state| <= k < out.Length ==> out[k] == old(out[k])
  {
    for j := 0 to |state|
      invariant forall k :: 0 <= k < off ==> out[k] == old(out[k])
      invariant forall m :: 0 <= m < j ==> out[off + m] == XorByte(old(out[off + m]), state[m])
      invariant forall k :: off + j <= k < out.Length ==> out[k] == old(out[k])
    {
      out[off + j] := XorByte(out[off + j], state[j]);
    }
  }
}
