/**
 * The decision logic of `main` and `playDiceGame`: the first-move guess,
 * the dice choice, the two throws and the final comparison. The terminal is
 * a script of input lines, the three calls to `crypto.randomBytes(32)` are
 * three byte sequences, and HMAC-SHA256 is a parameter.
 */
module DiceGame {
  import opened Wrappers
  import opened Hex
  import opened JsText
  import opened Commitments
  import opened Prompt

  /** Options of the first-move guess and of the dice choice. */
  const BINARY_OPTIONS: seq<string> := ["0", "1", "X", "?"]
  /** Options of both throw prompts. */
  const THROW_OPTIONS: seq<string> := ["0", "1", "2", "3", "4", "5", "X", "?"]
  /** `diceConfigs[0]`, the player's dice. */
  const USER_DICE: seq<int> := [2, 2, 4, 4, 9, 9]
  /** `diceConfigs[1]`, the computer's dice. */
  const COMPUTER_DICE: seq<int> := [6, 8, 1, 1, 8, 6]

  /** The prompt a run stopped at. */
  datatype Stage = GuessPrompt | DicePrompt | FirstThrowPrompt | SecondThrowPrompt

  datatype Verdict = UserWins | ComputerWins | Tie

  datatype Outcome =
    | Exited(at: Stage)      // "X": goodbye, no further prompt
    | HelpShown(at: Stage)   // "?": the help line, and the run ends as well
    | InputEnded(at: Stage)  // the input closed while this prompt waited
    | Finished(verdict: Verdict)

  /**
   * One throw round as printed: the computer's number, the answer the prompt
   * accepted, the player's number after `parseInt`, their sum modulo 6, and
   * the face the round reports.
   */
  datatype Throw = Throw(secret: nat, answer: string, userNumber: JsNumber, combined: JsNumber, face: Option<int>)

  /**
   * A run: how it ended, every commitment whose HMAC was shown (in order),
   * the first-move result once announced, the dice the player chose, the
   * throws resolved, the position of the next unread line and the number of
   * "Invalid selection" errors.
   */
  datatype Run = Run(
    outcome: Outcome,
    commitments: seq<Commitment>,
    firstMoveWon: Option<bool>,
    userDice: Option<seq<int>>,
    throws: seq<Throw>,
    next: nat,
    rejected: nat)

  /** `(randomInt + userInput) % 6`, with NaN propagating through `+` and `%`. */
  function AddModulo6(secret: nat, userNumber: JsNumber): (r: JsNumber)
    ensures userNumber.NaN? <==> r.NaN?
    ensures userNumber.Num? && userNumber.value >= 0 ==> 0 <= r.value < 6 && (secret + userNumber.value - r.value) % 6 == 0
  {
    match userNumber
    case NaN => NaN
    case Num(n) => Num(Rem(secret + n, 6))
  }

  /** `die[index]`: the face, or `undefined` for NaN or an index outside the die. */
  function Face(die: seq<int>, index: JsNumber): (r: Option<int>)
    ensures r.Some? <==> index.Num? && 0 <= index.value < |die|
    ensures r.Some? ==> r.value in die
  {
    if index.Num? && 0 <= index.value < |die| then Some(die[index.value]) else None
  }

  /**
   * The closing `if`/`else if`/`else`: `>` and `<` are both false when either
   * side is `undefined`, so that case is reported as a tie.
   */
  function Compare(userFace: Option<int>, computerFace: Option<int>): (v: Verdict)
    ensures v == UserWins <==> userFace.Some? && computerFace.Some? && userFace.value > computerFace.value
    ensures v == ComputerWins <==> userFace.Some? && computerFace.Some? && userFace.value < computerFace.value
    ensures v == Tie <==> userFace.None? || computerFace.None? || userFace == computerFace
  {
    if userFace.Some? && computerFace.Some? && userFace.value > computerFace.value then UserWins
    else if userFace.Some? && computerFace.Some? && userFace.value < computerFace.value then ComputerWins
    else Tie
  }

  /** How an "X" or "?" answer ends the run at `stage`. */
  function ControlOutcome(selection: string, stage: Stage): Outcome
    requires selection == "X" || selection == "?"
  {
    if selection == "X" then Exited(stage) else HelpShown(stage)
  }

  /**
   * `playDiceGame(dice1, dice2)` reading from position `from`: the reference
   * the method below is proved against. It is cut at the prompts into
   * `ThrowRounds` and `SecondThrow`. The functions repeat the methods step
   * for step on purpose: lemmas cannot call methods, so the properties of a
   * whole run (module `GameProperties`) are proved about these functions,
   * and each method's `ensures` ties it to them.
   */
  function DiceGameResult(dice1: seq<int>, dice2: seq<int>, input: seq<string>, from: nat,
                          bytes1: seq<Byte>, bytes2: seq<Byte>, hmacSha256: Hmac): Run
    requires from <= |input| && |bytes1| == SECRET_LENGTH && |bytes2| == SECRET_LENGTH
  {
    var choice := Ask(input, from, BINARY_OPTIONS);
    if choice.Exhausted? then Run(InputEnded(DicePrompt), [], None, None, [], |input|, choice.rejected)
    else if choice.selection == "X" || choice.selection == "?" then
      Run(ControlOutcome(choice.selection, DicePrompt), [], None, None, [], choice.next, choice.rejected)
    else
      var userDice := if choice.selection == "0" then dice1 else dice2;
      ThrowRounds(dice1, dice2, userDice, input, choice.next, choice.rejected, bytes1, bytes2, hmacSha256)
  }

  /** The two throw rounds, from the first throw's commitment on. */
  function ThrowRounds(dice1: seq<int>, dice2: seq<int>, userDice: seq<int>, input: seq<string>, from: nat,
                       rejected: nat, bytes1: seq<Byte>, bytes2: seq<Byte>, hmacSha256: Hmac): Run
    requires from <= |input| && |bytes1| == SECRET_LENGTH && |bytes2| == SECRET_LENGTH
  {
    var c1 := GenerateRandomNumber(5, bytes1, hmacSha256);
    var answer1 := Ask(input, from, THROW_OPTIONS);
    if answer1.Exhausted? then
      Run(InputEnded(FirstThrowPrompt), [c1], None, Some(userDice), [], |input|, rejected + answer1.rejected)
    else
      var n1 := ParseInt(answer1.selection);
      var t1 := Throw(c1.randomInt, answer1.selection, n1, AddModulo6(c1.randomInt, n1), Face(dice2, Num(c1.randomInt)));
      SecondThrow(dice1, userDice, c1, t1, input, answer1.next, rejected + answer1.rejected, bytes2, hmacSha256)
  }

  /** The second throw round and the comparison, after the first throw `t1`. */
  function SecondThrow(dice1: seq<int>, userDice: seq<int>, c1: Commitment, t1: Throw, input: seq<string>,
                       from: nat, rejected: nat, bytes2: seq<Byte>, hmacSha256: Hmac): Run
    requires from <= |input| && |bytes2| == SECRET_LENGTH
  {
    var c2 := GenerateRandomNumber(5, bytes2, hmacSha256);
    var answer2 := Ask(input, from, THROW_OPTIONS);
    if answer2.Exhausted? then
      Run(InputEnded(SecondThrowPrompt), [c1, c2], None, Some(userDice), [t1], |input|, rejected + answer2.rejected)
    else
      var n2 := ParseInt(answer2.selection);
      var t2 := Throw(c2.randomInt, answer2.selection, n2, AddModulo6(c2.randomInt, n2), Face(dice1, n2));
      Run(Finished(Compare(t2.face, t1.face)), [c1, c2], None, Some(userDice), [t1, t2], answer2.next,
          rejected + answer2.rejected)
  }

  /** `main`: the reference the method `RunGame` is proved against. */
  function GameResult(input: seq<string>, bytes0: seq<Byte>, bytes1: seq<Byte>, bytes2: seq<Byte>,
                      hmacSha256: Hmac): Run
    requires |bytes0| == SECRET_LENGTH && |bytes1| == SECRET_LENGTH && |bytes2| == SECRET_LENGTH
  {
    var c0 := GenerateRandomNumber(1, bytes0, hmacSha256);
    var guess := Ask(input, 0, BINARY_OPTIONS);
    if guess.Exhausted? then Run(InputEnded(GuessPrompt), [c0], None, None, [], |input|, guess.rejected)
    else if guess.selection == "X" || guess.selection == "?" then
      Run(ControlOutcome(guess.selection, GuessPrompt), [c0], None, None, [], guess.next, guess.rejected)
    else
      var won := ParseInt(guess.selection) == Num(c0.randomInt);
      var rest := DiceGameResult(USER_DICE, COMPUTER_DICE, input, guess.next, bytes1, bytes2, hmacSha256);
      rest.(commitments := [c0] + rest.commitments, firstMoveWon := Some(won), rejected := guess.rejected + rest.rejected)
  }

  /** Past a die choice, `playDiceGame` goes on with the throw rounds. */
  lemma DiceGameAfterChoice(dice1: seq<int>, dice2: seq<int>, input: seq<string>, from: nat,
                            bytes1: seq<Byte>, bytes2: seq<Byte>, hmacSha256: Hmac)
    requires from <= |input| && |bytes1| == SECRET_LENGTH && |bytes2| == SECRET_LENGTH
    ensures var choice := Ask(input, from, BINARY_OPTIONS);
      choice.Selected? && choice.selection != "X" && choice.selection != "?" ==>
        DiceGameResult(dice1, dice2, input, from, bytes1, bytes2, hmacSha256)
        == ThrowRounds(dice1, dice2, if choice.selection == "0" then dice1 else dice2, input, choice.next,
                       choice.rejected, bytes1, bytes2, hmacSha256)
  {
  }

  /** Past an answer to the first throw, the throw rounds go on with the second throw. */
  lemma ThrowRoundsAfterFirstAnswer(dice1: seq<int>, dice2: seq<int>, userDice: seq<int>, input: seq<string>, from: nat,
                                    rejected: nat, bytes1: seq<Byte>, bytes2: seq<Byte>, hmacSha256: Hmac)
    requires from <= |input| && |bytes1| == SECRET_LENGTH && |bytes2| == SECRET_LENGTH
    ensures var c1 := GenerateRandomNumber(5, bytes1, hmacSha256);
      var answer1 := Ask(input, from, THROW_OPTIONS);
      var n1 := if answer1.Selected? then ParseInt(answer1.selection) else NaN;
      answer1.Selected? ==>
        ThrowRounds(dice1, dice2, userDice, input, from, rejected, bytes1, bytes2, hmacSha256)
        == SecondThrow(dice1, userDice, c1,
                       Throw(c1.randomInt, answer1.selection, n1, AddModulo6(c1.randomInt, n1), Face(dice2, Num(c1.randomInt))),
                       input, answer1.next, rejected + answer1.rejected, bytes2, hmacSha256)
  {
  }

  /** `playDiceGame`, step by step, with the early returns of the source. */
  method PlayDiceGame(dice1: seq<int>, dice2: seq<int>, input: seq<string>, from: nat,
                      bytes1: seq<Byte>, bytes2: seq<Byte>, hmacSha256: Hmac) returns (run: Run)
    requires from <= |input| && |bytes1| == SECRET_LENGTH && |bytes2| == SECRET_LENGTH
    ensures run == DiceGameResult(dice1, dice2, input, from, bytes1, bytes2, hmacSha256)
  {
    var choice := PromptSelection(input, from, BINARY_OPTIONS);
    if choice.Exhausted? {
      return Run(InputEnded(DicePrompt), [], None, None, [], |input|, choice.rejected);
    }
    if choice.selection == "X" {
      return Run(Exited(DicePrompt), [], None, None, [], choice.next, choice.rejected);
    } else if choice.selection == "?" {
      return Run(HelpShown(DicePrompt), [], None, None, [], choice.next, choice.rejected);
    }
    var userDice := if choice.selection == "0" then dice1 else dice2;
    DiceGameAfterChoice(dice1, dice2, input, from, bytes1, bytes2, hmacSha256);

    var computerThrow1 := GenerateRandomNumber(5, bytes1, hmacSha256);
    var answer1 := PromptSelection(input, choice.next, THROW_OPTIONS);
    if answer1.Exhausted? {
      return Run(InputEnded(FirstThrowPrompt), [computerThrow1], None, Some(userDice), [],
                 |input|, choice.rejected + answer1.rejected);
    }
    var userInput1 := ParseInt(answer1.selection);
    var result1 := AddModulo6(computerThrow1.randomInt, userInput1);
    var computerResult1 := Face(dice2, Num(computerThrow1.randomInt));
    var throw1 := Throw(computerThrow1.randomInt, answer1.selection, userInput1, result1, computerResult1);
    ThrowRoundsAfterFirstAnswer(dice1, dice2, userDice, input, choice.next, choice.rejected, bytes1, bytes2, hmacSha256);

    var computerThrow2 := GenerateRandomNumber(5, bytes2, hmacSha256);
    var answer2 := PromptSelection(input, answer1.next, THROW_OPTIONS);
    var rejected := choice.rejected + answer1.rejected + answer2.rejected;
    if answer2.Exhausted? {
      return Run(InputEnded(SecondThrowPrompt), [computerThrow1, computerThrow2], None, Some(userDice), [throw1],
                 |input|, rejected);
    }
    var userInput2 := ParseInt(answer2.selection);
    var result2 := AddModulo6(computerThrow2.randomInt, userInput2);
    var userResult2 := Face(dice1, userInput2);
    var throw2 := Throw(computerThrow2.randomInt, answer2.selection, userInput2, result2, userResult2);

    var verdict := Compare(userResult2, computerResult1);
    run := Run(Finished(verdict), [computerThrow1, computerThrow2], None, Some(userDice), [throw1, throw2],
               answer2.next, rejected);
  }

  /** `main`, step by step: the first-move round, then `playDiceGame`. */
  method RunGame(input: seq<string>, bytes0: seq<Byte>, bytes1: seq<Byte>, bytes2: seq<Byte>,
                 hmacSha256: Hmac) returns (run: Run)
    requires |bytes0| == SECRET_LENGTH && |bytes1| == SECRET_LENGTH && |bytes2| == SECRET_LENGTH
    ensures run == GameResult(input, bytes0, bytes1, bytes2, hmacSha256)
  {
    var firstMove := GenerateRandomNumber(1, bytes0, hmacSha256);
    var guess := PromptSelection(input, 0, BINARY_OPTIONS);
    if guess.Exhausted? {
      return Run(InputEnded(GuessPrompt), [firstMove], None, None, [], |input|, guess.rejected);
    }
    if guess.selection == "X" {
      return Run(Exited(GuessPrompt), [firstMove], None, None, [], guess.next, guess.rejected);
    } else if guess.selection == "?" {
      return Run(HelpShown(GuessPrompt), [firstMove], None, None, [], guess.next, guess.rejected);
    }
    var userWin := ParseInt(guess.selection) == Num(firstMove.randomInt);

    var rest := PlayDiceGame(USER_DICE, COMPUTER_DICE, input, guess.next, bytes1, bytes2, hmacSha256);
    run := rest.(commitments := [firstMove] + rest.commitments, firstMoveWon := Some(userWin),
                 rejected := guess.rejected + rest.rejected);
  }
}
