# pa55 password generation, modelled in Dafny

pa55 derives a site password from two things the user remembers: a master secret and a per-site password hint. The class `PA55` holds six nullable fields:
- the secret;
- the hint;
- the PBKDF2 iteration count;
- the key length in octets;
- the HMAC hash function;
- the generated password.

`generatePBKDF2Password` works in three steps:
1. It encodes the secret and the hint as UTF-8.
2. It runs PBKDF2 with HMAC over SHA-1, SHA-256 or SHA-512, taking the secret's octets as the password and the hint's octets as the salt.
3. It stores the Base64 text of the derived key as the generated password.

The console program `main` reads the secret and the hint, then three numbered menus (length, iterations, hash function), and prints the password.

The model has seven modules:
- `Common`: octets, Java `int` wrap-around and truncating division, and the Option, Result and Outcome wrappers.
- `HashFunctions`: the `HMACHashFunction` enum and its digest sizes. HMAC itself is a parameter `prf` of type `Prf`, whose only property is that its output has the digest's size.
- `Utf8`: `String.getBytes("UTF-8")` as RFC 3629 defines it, with a decoder. The decoder proves the encoding injective.
- `Base64`: the single-line, padded encoding of section 4 of RFC 4648, with an exact inverse. This is what `encodeBase64String` returns in commons-codec 1.5 and later.
- `Pbkdf2`: section 5.2 of RFC 8018 as functions (`U`, `F`, `Blocks`, `DeriveKey`), and the generator's in-place loop over a `byte` array (`GenerateDerivedKey` and the methods below it), proved to compute them.
- `Core`: the `PA55` class, and `GeneratedPassword`, the value generation stores or the exception it throws.
- `Menu`: the prompts, the menu arithmetic and the console run.

Where the code and the project's documentation differ, the model follows the code:
- **No parameter validation.** The class does not check its parameters; a missing field fails with a null dereference. Generation is only modelled with all five inputs set (`Ready`).
- **Key length wraps.** `pbkdfLength * 8` is a Java `int` product. Lengths of 2^28 octets and more wrap (`Core.KeyLength`).
- **Iteration count from the key-derivation library.** A count of 0 is rejected only when at least one block is computed. A negative count behaves as 1.
- **Iterations menu.** Every choice except "Low" runs 250000 rounds more than its label says. The default, labelled 500K, gives 750000. `Menu.RoundsForChoice` states the offset.

## Model

| member | source | states |
|---|---|---|
| HashFunctions.Values | pa55-java-standalone/src/pa55/java/core/PA55.java:50-54 | the enum's three constants, each at its ordinal, all distinct |
| HashFunctions.DigestLength | pa55-java-standalone/src/pa55/java/core/PA55.java:106-116 | the digest the switch selects has 20, 32 or 64 octets |
| HashFunctions.DigestDispatch | pa55-java-standalone/src/pa55/java/core/PA55.java:106-116 | the switch is one-to-one: SHA1 selects 20 octets, SHA256 selects 32 and SHA512 selects 64, and different constants give different sizes |
| Common.Wrap32 | pa55-java-standalone/src/pa55/java/core/PA55.java:119 | Java `int` arithmetic: agrees with the true value modulo 2^32 and is exact in range |
| Common.JavaDiv | pa55-java-standalone/src/pa55/java/core/PA55.java:119 | truncating division: the remainder has the sign of the dividend and is smaller than the divisor |
| Utf8.EncodeChar | pa55-java-standalone/src/pa55/java/core/PA55.java:118 | one to four octets, one exactly for ASCII, with continuation octets after the first |
| Utf8.Encode | pa55-java-standalone/src/pa55/java/core/PA55.java:118 | a string of n characters takes between n and 4n octets |
| Utf8.DecodeEncodeChar | pa55-java-standalone/src/pa55/java/core/PA55.java:118 | every character's encoding decodes back to it, whatever follows |
| Utf8.DecodeEncode | pa55-java-standalone/src/pa55/java/core/PA55.java:118 | decoding the octets of a string gives the string back |
| Utf8.EncodeDecode | pa55-java-standalone/src/pa55/java/core/PA55.java:118 | octets that decode are exactly the encoding of the decoded string |
| Utf8.EncodeDecodeChar | pa55-java-standalone/src/pa55/java/core/PA55.java:118 | a decoded character is encoded by exactly the octets it was read from |
| Utf8.EncodeInjective | pa55-java-standalone/src/pa55/java/core/PA55.java:118 | different secrets (or hints) give different password (or salt) octets |
| Utf8.EncodeAscii | pa55-java-standalone/src/pa55/java/core/PA55.java:118 | an ASCII string is encoded octet for octet |
| Pbkdf2.U | pa55-java-standalone/src/pa55/java/core/PA55.java:119 | U_1 = PRF(P, S \|\| INT(i)) and U_j = PRF(P, U_(j-1)), each of the digest's size |
| Pbkdf2.F | pa55-java-standalone/src/pa55/java/core/PA55.java:119 | T_i = U_1 xor ... xor U_c, of the digest's size |
| Pbkdf2.Int32BE | pa55-java-standalone/src/pa55/java/core/PA55.java:119 | the block index as four big-endian octets whose value is the index |
| Pbkdf2.BlockCountBounds | pa55-java-standalone/src/pa55/java/core/PA55.java:119 | l = ceil(dkLen / hLen) blocks hold the key and l - 1 do not; fewer than 2^32 blocks within the standard's limit |
| Pbkdf2.DeriveKey | pa55-java-standalone/src/pa55/java/core/PA55.java:117-119 | the derived key has exactly the requested number of octets |
| Pbkdf2.DeriveKeyAt | pa55-java-standalone/src/pa55/java/core/PA55.java:117-119 | octet q * hLen + r of the key is octet r of block T_(q+1), the XOR of U_1 .. U_c |
| Pbkdf2.DeriveKeyPrefix | pa55-java-standalone/src/pa55/java/core/PA55.java:117-119 | a shorter key is a prefix of a longer key with the same inputs |
| Pbkdf2.BlocksSnoc | pa55-java-standalone/src/pa55/java/core/PA55.java:119 | T_1 through T_n is T_1 through T_(n-1) followed by T_n |
| Pbkdf2.BlocksPrefix | pa55-java-standalone/src/pa55/java/core/PA55.java:119 | fewer blocks are a prefix of more blocks |
| Pbkdf2.BlockInPlace | pa55-java-standalone/src/pa55/java/core/PA55.java:119 | block T_i sits right after T_1 .. T_(i-1) inside the full output |
| Pbkdf2.FStep | pa55-java-standalone/src/pa55/java/core/PA55.java:119 | one more iteration XORs the PRF of the previous U into the block |
| Pbkdf2.GenerateDerivedKey | pa55-java-standalone/src/pa55/java/core/PA55.java:117-119 | the generator's buffer loop returns exactly the key RFC 8018 defines |
| Pbkdf2.FillBlocks | pa55-java-standalone/src/pa55/java/core/PA55.java:119 | after the block loop the buffer holds T_1 .. T_l |
| Pbkdf2.WriteBlock | pa55-java-standalone/src/pa55/java/core/PA55.java:119 | one loop turn adds T_i and keeps the blocks already written |
| Pbkdf2.ComputeBlock | pa55-java-standalone/src/pa55/java/core/PA55.java:119 | writes T_i = F(P, S, c, i) at its offset and leaves the rest of the buffer unchanged |
| Pbkdf2.CopyInto | pa55-java-standalone/src/pa55/java/core/PA55.java:119 | U_1 is copied into place and nothing else changes |
| Pbkdf2.XorInto | pa55-java-standalone/src/pa55/java/core/PA55.java:119 | each further U_j is XORed into place and nothing else changes |
| Base64.CharOf | pa55-java-standalone/src/pa55/java/core/PA55.java:120 | every 6-bit value maps to an alphabet character |
| Base64.ValueOf | pa55-java-standalone/src/pa55/java/core/PA55.java:120 | a character has a value if and only if it is in the alphabet, and that value maps back to it |
| Base64.ValueOfCharOf | pa55-java-standalone/src/pa55/java/core/PA55.java:120 | the alphabet table read backwards gives the value back |
| Base64.JoinSplit | pa55-java-standalone/src/pa55/java/core/PA55.java:120 | cutting three octets into four 6-bit values and joining them is the identity |
| Base64.Encode | pa55-java-standalone/src/pa55/java/core/PA55.java:120 | n octets become 4 * ceil(n / 3) characters |
| Base64.DecodeEncode | pa55-java-standalone/src/pa55/java/core/PA55.java:120 | decoding the password gives back the octets it encodes |
| Base64.EncodeDecode | pa55-java-standalone/src/pa55/java/core/PA55.java:120 | only the encoder's own output decodes, so the encoding is injective |
| Base64.EncodeAlphabet | pa55-java-standalone/src/pa55/java/core/PA55.java:120 | the text is alphabet characters followed by exactly (3 - n mod 3) mod 3 pads |
| Core.KeyLength | pa55-java-standalone/src/pa55/java/core/PA55.java:119 | `pbkdfLength * 8` wrapped to an `int` and divided by 8: exact below 2^28 in magnitude, bounded by 2^28 always |
| Core.KeyLengthWraps | pa55-java-standalone/src/pa55/java/core/PA55.java:119 | 2^28 octets become -2^28, 2^29 become 0 and `Integer.MAX_VALUE` becomes -1 |
| Core.EffectiveRounds | pa55-java-standalone/src/pa55/java/core/PA55.java:118 | at least one round: exactly the count when it is positive, and exactly one when it is zero or negative |
| Core.DerivedKey | pa55-java-standalone/src/pa55/java/core/PA55.java:117-119 | the key has the requested length |
| Core.GeneratedPassword | pa55-java-standalone/src/pa55/java/core/PA55.java:104-121 | fails if and only if the wrapped length is negative, or the count is zero and a block is needed; a negative length fails as a negative array size and any other failure is the zero iteration count; a success has 4 * ceil(n / 3) characters |
| Core.GeneratedPasswordDecodes | pa55-java-standalone/src/pa55/java/core/PA55.java:117-120 | the password decodes to the PBKDF2 key of exactly the wrapped length |
| Core.SamePasswordSameKey | pa55-java-standalone/src/pa55/java/core/PA55.java:117-120 | two generations give the same password if and only if they derive the same key |
| Core.DerivedKeyPrefix | pa55-java-standalone/src/pa55/java/core/PA55.java:117-119 | a shorter requested length gives a prefix of the longer key |
| Core.TestGenerationShape | pa55-java-standalone/src/pa55/java/core/PA55.java:130-139 | 9 octets with SHA-512 and 500000 rounds give 12 characters with no pad, for any secret and hint |
| Core.PA55.constructor | pa55-java-standalone/src/pa55/java/core/PA55.java:56-61 | a new object has every field null |
| Core.PA55.GetMasterSecret | pa55-java-standalone/src/pa55/java/core/PA55.java:63-65 | returns the field |
| Core.PA55.SetMasterSecret | pa55-java-standalone/src/pa55/java/core/PA55.java:66-68 | sets only that field |
| Core.PA55.GetPasswordHint | pa55-java-standalone/src/pa55/java/core/PA55.java:69-71 | returns the field |
| Core.PA55.SetPasswordHint | pa55-java-standalone/src/pa55/java/core/PA55.java:72-74 | sets only that field |
| Core.PA55.GetPbkdfRounds | pa55-java-standalone/src/pa55/java/core/PA55.java:75-77 | returns the field |
| Core.PA55.SetPbkdfRounds | pa55-java-standalone/src/pa55/java/core/PA55.java:78-80 | sets only that field |
| Core.PA55.GetPbkdfLength | pa55-java-standalone/src/pa55/java/core/PA55.java:81-83 | returns the field |
| Core.PA55.SetPbkdfLength | pa55-java-standalone/src/pa55/java/core/PA55.java:84-86 | sets only that field |
| Core.PA55.GetPbkdfGeneratedPassword | pa55-java-standalone/src/pa55/java/core/PA55.java:87-89 | returns the field |
| Core.PA55.GetPbkdfAlgorithm | pa55-java-standalone/src/pa55/java/core/PA55.java:90-92 | returns the field |
| Core.PA55.SetPbkdfAlgorithm | pa55-java-standalone/src/pa55/java/core/PA55.java:93-95 | sets only that field |
| Core.PA55.GeneratePbkdf2Password | pa55-java-standalone/src/pa55/java/core/PA55.java:104-121 | on success stores exactly `GeneratedPassword` of the current fields; on an exception reports it and leaves the stored password as it was; writes no other field |
| Core.GenerateTwice | pa55-java-standalone/src/pa55/java/core/PA55.java:104-121 | generating twice with the same fields stores the same password |
| Menu.FirstAccepted | pa55-java-standalone/src/pa55/java/core/PA55.java:165-175 | no answer is found if and only if none is acceptable; an answer found is acceptable and was given |
| Menu.Prompt | pa55-java-standalone/src/pa55/java/core/PA55.java:179-183 | the re-prompt loop returns the first acceptable answer, after skipping only unacceptable ones |
| Menu.LengthForChoice | pa55-java-standalone/src/pa55/java/core/PA55.java:184-187 | a multiple of 3 between 6 and 24 octets, whose Base64 text has exactly the advertised number of characters |
| Menu.RoundsForChoice | pa55-java-standalone/src/pa55/java/core/PA55.java:194-202 | "Low" gives the advertised 10000; every other choice gives the advertised count plus 250000 |
| Menu.AlgorithmForChoice | pa55-java-standalone/src/pa55/java/core/PA55.java:209-212 | the advertised hash function; choice c picks the constant with ordinal c - 1 |
| Menu.Configure | pa55-java-standalone/src/pa55/java/core/PA55.java:187-212 | sets length, rounds and algorithm from the choices and nothing else |
| Menu.MenuPassword | pa55-java-standalone/src/pa55/java/core/PA55.java:177-216 | every menu combination generates a password of exactly the advertised length, with no pad |
| Menu.ConsoleRun | pa55-java-standalone/src/pa55/java/core/PA55.java:161-217 | a password is printed if and only if every prompt gets an acceptable answer, and it has the advertised length |
| Menu.GenerateFromMenu | pa55-java-standalone/src/pa55/java/core/PA55.java:161-217 | the console flow through a fresh object prints exactly `ConsoleRun` of the answers |

## Left out

- Console I/O is not modelled: the banner, the prompts, the echo question (lines 142-160), hidden input with `readPassword`, and `trim`. Each prompt instead receives the sequence of answers it would read. Which reader a re-prompt uses is not modelled.
- If the input runs out, `Scanner` throws. The model reports this as `None`.
- SHA-1, SHA-256, SHA-512 and HMAC are not part of this model. They are the parameter `prf`, whose only property is that it returns a digest-sized output.
- The key-derivation library's source is not in the repository. Its block loop, its iteration loop, its handling of the count (0 rejected once a block is computed; a negative count runs one round) and of a negative size (a negative array size) are modelled from its published behaviour.
- Core.TestGenerationShape: does not state the printed value of `testGeneration`, because that needs real SHA-512. It states the password's shape, for any secret and hint.
- Null fields are not modelled beyond `Ready`. The Java setters accept `null`, and generating with a null field fails with a null dereference. The model's setters take values, and generation requires every input to be set.
- The checked exceptions for unsupported encodings and algorithms cannot occur with the constants used, so they are not modelled.
- Base64.Encode: is the unchunked `encodeBase64String` of commons-codec 1.5 and later. In commons-codec 1.4 the same call is chunked: it breaks the text into 76-character lines and ends every non-empty output with CRLF. Under 1.4, line 120 would store `Encode(key) + "\r\n"`.
- Core.GeneratedPassword: its length, and the lengths promised by `Menu.MenuPassword` and `Menu.ConsoleRun`, count the unchunked text. Under commons-codec 1.4 the stored string is two characters longer, because of the trailing CRLF.
- A Java `String` can contain lone surrogates, which `getBytes` replaces with '?'. Dafny characters are Unicode scalar values, so the model has no such strings.
- Pbkdf2.ComputeBlock: the generator works on `byte[]` buffers of the digest's size. The model keeps each U_j as a sequence value and only the output buffer as an array.
- Core.GenerateTwice: only states determinism. That nearby inputs give unrelated passwords depends on HMAC, which is abstract here.
