/** The three numbered menus of the console program: each answer is read
    again until it is in range, choice 0 stands for a default, and the
    choice is turned into a key length, an iteration count or a hash
    function. The prompts' own texts are kept as tables of what each
    choice advertises, so the code's arithmetic can be held against them. */
module Menu {
  import opened Common
  import opened HashFunctions
  import Base64
  import Core

  /** The first answer a prompt accepts, None when none is accepted. */
  function FirstAccepted<T>(answers: seq<T>, accept: T -> bool): (r: Option<T>)
    ensures r.None? <==> forall k :: 0 <= k < |answers| ==> !accept(answers[k])
    ensures r.Some? ==> accept(r.value) && r.value in answers
  {
    if |answers| == 0 then None
    else if accept(answers[0]) then Some(answers[0])
    else FirstAccepted(answers[1..], accept)
  }

  /** A menu answer is taken when it lies in 0..hi. */
  function InRange(hi: int): int -> bool
  {
    a => 0 <= a <= hi
  }

  /** The secret and the hint are taken when they are not empty. */
  predicate NonEmpty(line: string)
  {
    |line| > 0
  }

  /** A prompt with its re-prompt loop: reads answers until one is
      accepted; `used` is how many answers were consumed. None when the
      input runs out first. */
  method Prompt<T>(answers: seq<T>, accept: T -> bool) returns (answer: Option<T>, used: nat)
    ensures answer == FirstAccepted(answers, accept)
    ensures used <= |answers|
    ensures forall k :: 0 <= k < used - 1 ==> !accept(answers[k])
    ensures answer.Some? ==> 1 <= used && answer.value == answers[used - 1]
    ensures answer.None? ==> used == |answers|
  {
    used := 0;
    while used < |answers|
      invariant used <= |answers|
      invariant forall k :: 0 <= k < used ==> !accept(answers[k])
      invariant FirstAccepted(answers, accept) == FirstAccepted(answers[used..], accept)
    {
      var answer := answers[used];
      assert answers[used..][1..] == answers[used + 1..];
      used := used + 1;
      if accept(answer) {
        return Some(answer), used;
      }
    }
    answer := None;
  }

  /** Password length in characters as the length menu lists it. */
  function AdvertisedCharacters(c: int): nat
    requires 0 <= c <= 7
  {
    [12, 8, 12, 16, 20, 24, 28, 32][c]
  }

  /** Iteration count as the iterations menu lists it. */
  function AdvertisedRounds(c: int): nat
    requires 0 <= c <= 7
  {
    [500000, 10000, 250000, 500000, 750000, 1000000, 1250000, 1500000][c]
  }

  /** Hash function as the algorithm menu lists it. */
  function AdvertisedAlgorithm(c: int): HashFunction
    requires 0 <= c <= 3
  {
    [SHA256, SHA1, SHA256, SHA512][c]
  }

  /** Key length in octets for a length choice: 0 means 2, and choice c
      asks for (c + 1) * 3 octets, which Base64 writes as exactly the
      advertised number of characters. */
  function LengthForChoice(c: int): (n: int32)
    requires 0 <= c <= 7
    ensures 6 <= n <= 24 && n % 3 == 0
    ensures 4 * (n / 3) == AdvertisedCharacters(c)
  {
    var choice := if c == 0 then 2 else c;
    (choice + 1) * 3
  }

  /** Iteration count for an iterations choice: 0 means 3, choice 1 gives
      10000 and any other choice c gives c * 250000. Every choice but
      "Low" runs 250000 rounds more than the menu says. */
  function RoundsForChoice(c: int): (r: int32)
    requires 0 <= c <= 7
    ensures 10000 <= r <= 1750000
    ensures c == 1 ==> r == AdvertisedRounds(c)
    ensures c != 1 ==> r == AdvertisedRounds(c) + 250000
  {
    var choice := if c == 0 then 3 else c;
    if choice != 1 then choice * 250000 else 10000
  }

  /** Hash function for an algorithm choice: 0 means 2, and choice c picks
      the enumeration's value at index c - 1, always in bounds. */
  function AlgorithmForChoice(c: int): (alg: HashFunction)
    requires 0 <= c <= 3
    ensures alg == AdvertisedAlgorithm(c)
    ensures c != 0 ==> Ordinal(alg) == c - 1
  {
    var choice := if c == 0 then 2 else c;
    Values()[choice - 1]
  }

  /** Sets the three parameters the menus choose, leaving the secret, the
      hint and the generated password alone. */
  method Configure(core: Core.PA55, lengthChoice: int, roundsChoice: int, algChoice: int)
    requires 0 <= lengthChoice <= 7 && 0 <= roundsChoice <= 7 && 0 <= algChoice <= 3
    modifies core
    ensures core.pbkdfLength == Some(LengthForChoice(lengthChoice))
    ensures core.pbkdfRounds == Some(RoundsForChoice(roundsChoice))
    ensures core.pbkdfAlgorithm == Some(AlgorithmForChoice(algChoice))
    ensures core.masterSecret == old(core.masterSecret) && core.passwordHint == old(core.passwordHint)
    ensures core.pbkdfGeneratedPassword == old(core.pbkdfGeneratedPassword)
  {
    core.SetPbkdfLength(LengthForChoice(lengthChoice));
    core.SetPbkdfRounds(RoundsForChoice(roundsChoice));
    core.SetPbkdfAlgorithm(AlgorithmForChoice(algChoice));
  }

  /** Any combination of menu choices generates a password, of exactly
      the advertised number of characters, with no padding. */
  lemma MenuPassword(prf: Prf, secret: string, hint: string, lengthChoice: int, roundsChoice: int, algChoice: int)
    requires 0 <= lengthChoice <= 7 && 0 <= roundsChoice <= 7 && 0 <= algChoice <= 3
    ensures var r := Core.GeneratedPassword(prf, secret, hint, RoundsForChoice(roundsChoice),
                                            LengthForChoice(lengthChoice), AlgorithmForChoice(algChoice));
      r.Ok? && |r.value| == AdvertisedCharacters(lengthChoice) &&
      forall k :: 0 <= k < |r.value| ==> Base64.IsAlphabetChar(r.value[k])
  {
    var n := LengthForChoice(lengthChoice);
    var key := Core.DerivedKey(prf, secret, hint, RoundsForChoice(roundsChoice), n, AlgorithmForChoice(algChoice));
    Base64.EncodeAlphabet(key);
    assert Base64.PadCount(|key|) == 0;
  }

  /** What the console program prints as the password for the answers it
      is given, in the order it asks: secret, hint, then the three menus.
      None when some prompt never receives an acceptable answer. */
  function ConsoleRun(prf: Prf, secretAnswers: seq<string>, hintAnswers: seq<string>,
                      lengthAnswers: seq<int>, roundsAnswers: seq<int>, algAnswers: seq<int>): (password: Option<string>)
    ensures password.Some? <==>
      FirstAccepted(secretAnswers, NonEmpty).Some? && FirstAccepted(hintAnswers, NonEmpty).Some? &&
      FirstAccepted(lengthAnswers, InRange(7)).Some? && FirstAccepted(roundsAnswers, InRange(7)).Some? &&
      FirstAccepted(algAnswers, InRange(3)).Some?
    ensures password.Some? ==> |password.value| == AdvertisedCharacters(FirstAccepted(lengthAnswers, InRange(7)).value)
  {
    match (FirstAccepted(secretAnswers, NonEmpty), FirstAccepted(hintAnswers, NonEmpty),
           FirstAccepted(lengthAnswers, InRange(7)), FirstAccepted(roundsAnswers, InRange(7)),
           FirstAccepted(algAnswers, InRange(3)))
    case (Some(secret), Some(hint), Some(lc), Some(rc), Some(ac)) =>
      MenuPassword(prf, secret, hint, lc, rc, ac);
      Some(Core.GeneratedPassword(prf, secret, hint, RoundsForChoice(rc), LengthForChoice(lc), AlgorithmForChoice(ac)).value)
    case _ => None
  }

  /** The console program: reads the secret, the hint and the three
      choices from the answers given, sets up a fresh object, generates
      and reads back the stored password. */
  method GenerateFromMenu(prf: Prf, secretAnswers: seq<string>, hintAnswers: seq<string>,
                          lengthAnswers: seq<int>, roundsAnswers: seq<int>, algAnswers: seq<int>)
    returns (password: Option<string>)
    ensures password == ConsoleRun(prf, secretAnswers, hintAnswers, lengthAnswers, roundsAnswers, algAnswers)
  {
    var secret, _ := Prompt(secretAnswers, NonEmpty);
    var hint, _ := Prompt(hintAnswers, NonEmpty);
    if secret.None? || hint.None? {
      return None;
    }
    var core := new Core.PA55();
    core.SetMasterSecret(secret.value);
    core.SetPasswordHint(hint.value);
    var lengthChoice, _ := Prompt(lengthAnswers, InRange(7));
    var roundsChoice, _ := Prompt(roundsAnswers, InRange(7));
    var algChoice, _ := Prompt(algAnswers, InRange(3));
    if lengthChoice.None? || roundsChoice.None? || algChoice.None? {
      return None;
    }
    Configure(core, lengthChoice.value, roundsChoice.value, algChoice.value);
    MenuPassword(prf, secret.value, hint.value, lengthChoice.value, roundsChoice.value, algChoice.value);
    var _ := core.GeneratePbkdf2Password(prf);
    password := core.pbkdfGeneratedPassword;
  }
}
