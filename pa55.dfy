/** The password generator object: six nullable fields set one by one, and
    `generatePBKDF2Password`, which derives a key with PBKDF2 from the
    UTF-8 octets of the master secret (the password) and of the hint (the
    salt) and stores its Base64 text as the generated password. */
module Core {
  import opened Common
  import opened HashFunctions
  import Pbkdf2
  import Base64
  import Utf8

  /** The exceptions the key generator throws for the parameters it is
      given: a negative array size when the requested key length is
      negative, and an illegal argument when an iteration count of zero
      reaches the first block. */
  datatype GenerationError = NegativeKeyLength | ZeroIterationCount

  /** The key length in octets the generator works with: `pbkdfLength * 8`
      is a Java `int` product, which wraps modulo 2^32, and the generator
      turns bits back into octets by truncating division by 8. The length
      is kept exactly below 2^28 in magnitude; beyond, it wraps. */
  function KeyLength(len: int32): (n: int)
    ensures -0x1000_0000 <= n < 0x1000_0000
    ensures -0x1000_0000 <= len < 0x1000_0000 ==> n == len
  {
    JavaDiv(Wrap32(len * 8), 8)
  }

  /** Lengths of 2^28 octets and more are not honoured: 2^28 turns into a
      negative length and 2^29 into an empty key. */
  lemma KeyLengthWraps()
    ensures KeyLength(0x1000_0000) == -0x1000_0000
    ensures KeyLength(0x2000_0000) == 0
    ensures KeyLength(0x7fff_ffff) == -1
  {
  }

  /** The iteration count PBKDF2 runs with: the generator's inner loop runs
      from 1 while the counter is below the count, so a negative count
      computes U_1 alone, as a count of one does. */
  function EffectiveRounds(rounds: int32): (c: nat)
    ensures c >= 1
    ensures rounds >= 1 ==> c == rounds
    ensures rounds < 1 ==> c == 1
  {
    if rounds < 1 then 1 else rounds
  }

  /** The raw key: PBKDF2 over the UTF-8 octets of secret and hint. */
  function DerivedKey(prf: Prf, secret: string, hint: string, rounds: int32, n: nat, alg: HashFunction): (key: seq<byte>)
    requires n < 0x1000_0000
    ensures |key| == n
  {
    Pbkdf2.BlockCountBounds(alg, n);
    Pbkdf2.DeriveKey(prf, alg, Utf8.Encode(secret), Utf8.Encode(hint), EffectiveRounds(rounds), n)
  }

  /** What `generatePBKDF2Password` stores, or the exception it throws,
      as a function of the five parameter fields. */
  function GeneratedPassword(prf: Prf, secret: string, hint: string, rounds: int32, length: int32, alg: HashFunction)
    : (r: Result<string, GenerationError>)
    ensures r.Err? <==> KeyLength(length) < 0 || (rounds == 0 && KeyLength(length) > 0)
    ensures r.Err? && KeyLength(length) < 0 ==> r.error == NegativeKeyLength
    ensures r.Err? && KeyLength(length) >= 0 ==> r.error == ZeroIterationCount
    ensures r.Ok? ==> |r.value| == 4 * ((KeyLength(length) + 2) / 3)
  {
    var n := KeyLength(length);
    if n < 0 then Err(NegativeKeyLength)
    else if rounds == 0 && n > 0 then Err(ZeroIterationCount)
    else Ok(Base64.Encode(DerivedKey(prf, secret, hint, rounds, n, alg)))
  }

  /** The generated password decodes to the PBKDF2 key of exactly the
      requested length, and to nothing else. */
  lemma GeneratedPasswordDecodes(prf: Prf, secret: string, hint: string, rounds: int32, length: int32, alg: HashFunction)
    requires GeneratedPassword(prf, secret, hint, rounds, length, alg).Ok?
    ensures var p := GeneratedPassword(prf, secret, hint, rounds, length, alg).value;
      0 <= KeyLength(length) &&
      Base64.Decode(p) == Some(DerivedKey(prf, secret, hint, rounds, KeyLength(length), alg)) &&
      |DerivedKey(prf, secret, hint, rounds, KeyLength(length), alg)| == KeyLength(length)
  {
    Base64.DecodeEncode(DerivedKey(prf, secret, hint, rounds, KeyLength(length), alg));
  }

  /** A password that decodes to a key is the password of that key: two
      runs give the same password exactly when they derive the same key. */
  lemma SamePasswordSameKey(prf: Prf, secret: string, hint: string, rounds: int32, length: int32, alg: HashFunction,
                            secret': string, hint': string, rounds': int32, length': int32, alg': HashFunction)
    requires GeneratedPassword(prf, secret, hint, rounds, length, alg).Ok?
    requires GeneratedPassword(prf, secret', hint', rounds', length', alg').Ok?
    ensures GeneratedPassword(prf, secret, hint, rounds, length, alg) == GeneratedPassword(prf, secret', hint', rounds', length', alg')
        <==> DerivedKey(prf, secret, hint, rounds, KeyLength(length), alg) == DerivedKey(prf, secret', hint', rounds', KeyLength(length'), alg')
  {
    GeneratedPasswordDecodes(prf, secret, hint, rounds, length, alg);
    GeneratedPasswordDecodes(prf, secret', hint', rounds', length', alg');
  }

  /** Asking for fewer octets gives a prefix of the longer key: the key
      behind a shorter password starts the key behind a longer one. */
  lemma DerivedKeyPrefix(prf: Prf, secret: string, hint: string, rounds: int32, n: nat, n': nat, alg: HashFunction)
    requires n <= n' < 0x1000_0000
    ensures DerivedKey(prf, secret, hint, rounds, n, alg) == DerivedKey(prf, secret, hint, rounds, n', alg)[..n]
  {
    Pbkdf2.BlockCountBounds(alg, n');
    Pbkdf2.DeriveKeyPrefix(prf, alg, Utf8.Encode(secret), Utf8.Encode(hint), EffectiveRounds(rounds), n, n');
  }

  /** Nine octets with SHA-512 and 500000 rounds, as `testGeneration`
      asks for with its own secret and hint: a key shorter than one digest
      block gives a password of twelve characters, none of them a pad. */
  lemma TestGenerationShape(prf: Prf, secret: string, hint: string)
    ensures var r := GeneratedPassword(prf, secret, hint, 500000, 9, SHA512);
      r.Ok? && |r.value| == 12 && forall k :: 0 <= k < 12 ==> Base64.IsAlphabetChar(r.value[k])
  {
    var key := DerivedKey(prf, secret, hint, 500000, 9, SHA512);
    Base64.EncodeAlphabet(key);
  }

  /** The password object. A field the source leaves null is None. */
  class PA55 {
    var masterSecret: Option<string>
    var passwordHint: Option<string>
    var pbkdfRounds: Option<int32>
    var pbkdfLength: Option<int32>
    var pbkdfAlgorithm: Option<HashFunction>
    var pbkdfGeneratedPassword: Option<string>

    /** A new object has every field null. */
    constructor ()
      ensures masterSecret == None && passwordHint == None && pbkdfRounds == None
      ensures pbkdfLength == None && pbkdfAlgorithm == None && pbkdfGeneratedPassword == None
    {
      masterSecret, passwordHint, pbkdfRounds := None, None, None;
      pbkdfLength, pbkdfAlgorithm, pbkdfGeneratedPassword := None, None, None;
    }

    method GetMasterSecret() returns (r: Option<string>)
      ensures r == masterSecret
    {
      r := masterSecret;
    }

    method SetMasterSecret(secret: string)
      modifies this`masterSecret
      ensures masterSecret == Some(secret)
    {
      masterSecret := Some(secret);
    }

    method GetPasswordHint() returns (r: Option<string>)
      ensures r == passwordHint
    {
      r := passwordHint;
    }

    method SetPasswordHint(hint: string)
      modifies this`passwordHint
      ensures passwordHint == Some(hint)
    {
      passwordHint := Some(hint);
    }

    method GetPbkdfRounds() returns (r: Option<int32>)
      ensures r == pbkdfRounds
    {
      r := pbkdfRounds;
    }

    method SetPbkdfRounds(rounds: int32)
      modifies this`pbkdfRounds
      ensures pbkdfRounds == Some(rounds)
    {
      pbkdfRounds := Some(rounds);
    }

    method GetPbkdfLength() returns (r: Option<int32>)
      ensures r == pbkdfLength
    {
      r := pbkdfLength;
    }

    method SetPbkdfLength(length: int32)
      modifies this`pbkdfLength
      ensures pbkdfLength == Some(length)
    {
      pbkdfLength := Some(length);
    }

    method GetPbkdfGeneratedPassword() returns (r: Option<string>)
      ensures r == pbkdfGeneratedPassword
    {
      r := pbkdfGeneratedPassword;
    }

    method GetPbkdfAlgorithm() returns (r: Option<HashFunction>)
      ensures r == pbkdfAlgorithm
    {
      r := pbkdfAlgorithm;
    }

    method SetPbkdfAlgorithm(alg: HashFunction)
      modifies this`pbkdfAlgorithm
      ensures pbkdfAlgorithm == Some(alg)
    {
      pbkdfAlgorithm := Some(alg);
    }

    /** Every field generation reads is set. */
    predicate Ready()
      reads this
    {
      masterSecret.Some? && passwordHint.Some? && pbkdfRounds.Some? && pbkdfLength.Some? && pbkdfAlgorithm.Some?
    }

    /** The password generation now on record for the current fields. */
    function Expected(prf: Prf): Result<string, GenerationError>
      reads this
      requires Ready()
    {
      GeneratedPassword(prf, masterSecret.value, passwordHint.value, pbkdfRounds.value, pbkdfLength.value, pbkdfAlgorithm.value)
    }

    /** Derives the key and stores its Base64 text; on an exception the
        stored password is left as it was. Only that field is written. */
    method GeneratePbkdf2Password(prf: Prf) returns (outcome: Outcome<GenerationError>)
      requires Ready()
      modifies this`pbkdfGeneratedPassword
      ensures Expected(prf).Ok? ==> outcome == Pass && pbkdfGeneratedPassword == Some(Expected(prf).value)
      ensures Expected(prf).Err? ==> outcome == Fail(Expected(prf).error) && pbkdfGeneratedPassword == old(pbkdfGeneratedPassword)
    {
      var alg := pbkdfAlgorithm.value;
      var password := Utf8.Encode(masterSecret.value);
      var salt := Utf8.Encode(passwordHint.value);
      var n := KeyLength(pbkdfLength.value);
      if n < 0 {
        return Fail(NegativeKeyLength);
      }
      if pbkdfRounds.value == 0 && n > 0 {
        return Fail(ZeroIterationCount);
      }
      Pbkdf2.BlockCountBounds(alg, n);
      var key := Pbkdf2.GenerateDerivedKey(prf, alg, password, salt, EffectiveRounds(pbkdfRounds.value), n);
      pbkdfGeneratedPassword := Some(Base64.Encode(key));
      outcome := Pass;
    }
  }

  /** Generating twice without touching the parameters stores the same
      password: generation is deterministic and idempotent. */
  method GenerateTwice(core: PA55, prf: Prf) returns (first: Option<string>, second: Option<string>)
    requires core.Ready()
    modifies core`pbkdfGeneratedPassword
    ensures first == second == core.pbkdfGeneratedPassword
  {
    var _ := core.GeneratePbkdf2Password(prf);
    first := core.pbkdfGeneratedPassword;
    var _ := core.GeneratePbkdf2Password(prf);
    second := core.pbkdfGeneratedPassword;
  }
}
