/**
 * What a whole run of `main` promises, stated about the reference
 * `GameResult` that the method `RunGame` is proved equal to.
 */
module GameProperties {
  import opened Wrappers
  import opened Hex
  import opened JsText
  import opened Commitments
  import opened Prompt
  import opened DiceGame

  /** The three 32-byte draws of a run. */
  predicate Draws(bytes0: seq<Byte>, bytes1: seq<Byte>, bytes2: seq<Byte>) {
    |bytes0| == SECRET_LENGTH && |bytes1| == SECRET_LENGTH && |bytes2| == SECRET_LENGTH
  }

  /** "X" and "?", which end the run at the first two prompts. */
  predicate IsControl(selection: string) {
    selection == "X" || selection == "?"
  }

  /** The number of prompts a run with this outcome has had answered. */
  function AnswersGiven(outcome: Outcome): nat {
    match outcome
    case Exited(at) => StageIndex(at) + 1
    case HelpShown(at) => StageIndex(at) + 1
    case InputEnded(at) => StageIndex(at)
    case Finished(_) => 4
  }

  function StageIndex(stage: Stage): nat {
    match stage
    case GuessPrompt => 0
    case DicePrompt => 1
    case FirstThrowPrompt => 2
    case SecondThrowPrompt => 3
  }

  /** What `parseInt` makes of each answer a throw prompt accepts. */
  lemma ParseThrowOption(s: string)
    requires s in THROW_OPTIONS
    ensures ParseInt(s) == if IsControl(s) then NaN else Num(s[0] as int - '0' as int)
    ensures ParseInt(s).Num? ==> 0 <= ParseInt(s).value <= 5
  {
    assert IsControl(s) || s in ["0", "1", "2", "3", "4", "5"];
  }

  /**
   * "X" or "?" at the guess prompt ends the run there: only the first-move
   * commitment was made, no first-move result is announced, no throw happens
   * and no line after the answer is read.
   */
  lemma GuessControlEndsRun(input: seq<string>, bytes0: seq<Byte>, bytes1: seq<Byte>, bytes2: seq<Byte>, hmacSha256: Hmac)
    requires Draws(bytes0, bytes1, bytes2)
    requires Ask(input, 0, BINARY_OPTIONS).Selected? && IsControl(Ask(input, 0, BINARY_OPTIONS).selection)
    ensures var run, guess := GameResult(input, bytes0, bytes1, bytes2, hmacSha256), Ask(input, 0, BINARY_OPTIONS);
      run.outcome == (if guess.selection == "X" then Exited(GuessPrompt) else HelpShown(GuessPrompt)) &&
      run.commitments == [GenerateRandomNumber(1, bytes0, hmacSha256)] &&
      run.firstMoveWon == None && run.throws == [] && run.next == guess.next
  {
  }

  /**
   * "X" or "?" at the dice prompt ends the run there: the first move was
   * announced, but no throw commitment was made, no throw happens and no
   * line after the answer is read.
   */
  lemma DiceControlEndsRun(input: seq<string>, bytes0: seq<Byte>, bytes1: seq<Byte>, bytes2: seq<Byte>, hmacSha256: Hmac)
    requires Draws(bytes0, bytes1, bytes2)
    requires Ask(input, 0, BINARY_OPTIONS).Selected? && !IsControl(Ask(input, 0, BINARY_OPTIONS).selection)
    requires Ask(input, Ask(input, 0, BINARY_OPTIONS).next, BINARY_OPTIONS).Selected?
    requires IsControl(Ask(input, Ask(input, 0, BINARY_OPTIONS).next, BINARY_OPTIONS).selection)
    ensures var run, choice := GameResult(input, bytes0, bytes1, bytes2, hmacSha256),
                               Ask(input, Ask(input, 0, BINARY_OPTIONS).next, BINARY_OPTIONS);
      run.outcome == (if choice.selection == "X" then Exited(DicePrompt) else HelpShown(DicePrompt)) &&
      run.commitments == [GenerateRandomNumber(1, bytes0, hmacSha256)] &&
      run.firstMoveWon.Some? && run.throws == [] && run.next == choice.next
  {
  }

  /**
   * The first move is won exactly when the guess equals the committed value
   * (not by the modulo-6 rule of the throws).
   */
  lemma FirstMoveRule(input: seq<string>, bytes0: seq<Byte>, bytes1: seq<Byte>, bytes2: seq<Byte>, hmacSha256: Hmac)
    requires Draws(bytes0, bytes1, bytes2)
    requires Ask(input, 0, BINARY_OPTIONS).Selected? && !IsControl(Ask(input, 0, BINARY_OPTIONS).selection)
    ensures GameResult(input, bytes0, bytes1, bytes2, hmacSha256).firstMoveWon
            == Some((Ask(input, 0, BINARY_OPTIONS).selection == "1") == (bytes0[0] % 2 == 1))
  {
    var guess := Ask(input, 0, BINARY_OPTIONS).selection;
    assert guess == "0" || guess == "1";
    GuessAgainstBit(guess, bytes0[0]);
    assert GameResult(input, bytes0, bytes1, bytes2, hmacSha256).firstMoveWon
        == Some(ParseInt(guess) == Num(bytes0[0] % 2));
  }

  /** `parseInt` of a guess equals the committed bit exactly when the guess names that bit. */
  lemma GuessAgainstBit(guess: string, b: Byte)
    requires guess == "0" || guess == "1"
    ensures (ParseInt(guess) == Num(b % 2)) == ((guess == "1") == (b % 2 == 1))
  {
    assert ParseInt(guess) == Num(guess[0] as int - '0' as int);
  }

  /**
   * The throw rounds see only the lines after the dice choice: neither the
   * chosen dice nor the guess (so neither first-move result) changes their
   * commitments, throws or outcome; the player always throws `USER_DICE`
   * and the computer `COMPUTER_DICE`.
   */
  lemma ThrowsIgnoreEarlyAnswers(input1: seq<string>, input2: seq<string>,
                                 bytes0: seq<Byte>, bytes1: seq<Byte>, bytes2: seq<Byte>, hmacSha256: Hmac)
    requires Draws(bytes0, bytes1, bytes2)
    requires Ask(input1, 0, BINARY_OPTIONS).Selected? && !IsControl(Ask(input1, 0, BINARY_OPTIONS).selection)
    requires Ask(input2, 0, BINARY_OPTIONS).Selected? && !IsControl(Ask(input2, 0, BINARY_OPTIONS).selection)
    requires Ask(input1, Ask(input1, 0, BINARY_OPTIONS).next, BINARY_OPTIONS).Selected?
    requires Ask(input2, Ask(input2, 0, BINARY_OPTIONS).next, BINARY_OPTIONS).Selected?
    requires !IsControl(Ask(input1, Ask(input1, 0, BINARY_OPTIONS).next, BINARY_OPTIONS).selection)
    requires !IsControl(Ask(input2, Ask(input2, 0, BINARY_OPTIONS).next, BINARY_OPTIONS).selection)
    requires input1[Ask(input1, Ask(input1, 0, BINARY_OPTIONS).next, BINARY_OPTIONS).next..]
             == input2[Ask(input2, Ask(input2, 0, BINARY_OPTIONS).next, BINARY_OPTIONS).next..]
    ensures GameResult(input1, bytes0, bytes1, bytes2, hmacSha256).outcome
            == GameResult(input2, bytes0, bytes1, bytes2, hmacSha256).outcome
    ensures GameResult(input1, bytes0, bytes1, bytes2, hmacSha256).throws
            == GameResult(input2, bytes0, bytes1, bytes2, hmacSha256).throws
    ensures GameResult(input1, bytes0, bytes1, bytes2, hmacSha256).commitments
            == GameResult(input2, bytes0, bytes1, bytes2, hmacSha256).commitments
  {
    var guess1, guess2 := Ask(input1, 0, BINARY_OPTIONS), Ask(input2, 0, BINARY_OPTIONS);
    var choice1, choice2 := Ask(input1, guess1.next, BINARY_OPTIONS), Ask(input2, guess2.next, BINARY_OPTIONS);
    ThrowRoundsShift(input1, choice1.next, choice1.rejected, if choice1.selection == "0" then USER_DICE else COMPUTER_DICE,
                     input2, choice2.next, choice2.rejected, if choice2.selection == "0" then USER_DICE else COMPUTER_DICE,
                     bytes1, bytes2, hmacSha256);
  }

  /** The throw rounds depend on the script only from their first line on, and not on the chosen dice. */
  lemma ThrowRoundsShift(a: seq<string>, i: nat, rejectedA: nat, userDiceA: seq<int>,
                         b: seq<string>, j: nat, rejectedB: nat, userDiceB: seq<int>,
                         bytes1: seq<Byte>, bytes2: seq<Byte>, hmacSha256: Hmac)
    requires i <= |a| && j <= |b| && a[i..] == b[j..]
    requires |bytes1| == SECRET_LENGTH && |bytes2| == SECRET_LENGTH
    ensures ThrowRounds(USER_DICE, COMPUTER_DICE, userDiceA, a, i, rejectedA, bytes1, bytes2, hmacSha256).outcome
            == ThrowRounds(USER_DICE, COMPUTER_DICE, userDiceB, b, j, rejectedB, bytes1, bytes2, hmacSha256).outcome
    ensures ThrowRounds(USER_DICE, COMPUTER_DICE, userDiceA, a, i, rejectedA, bytes1, bytes2, hmacSha256).throws
            == ThrowRounds(USER_DICE, COMPUTER_DICE, userDiceB, b, j, rejectedB, bytes1, bytes2, hmacSha256).throws
    ensures ThrowRounds(USER_DICE, COMPUTER_DICE, userDiceA, a, i, rejectedA, bytes1, bytes2, hmacSha256).commitments
            == ThrowRounds(USER_DICE, COMPUTER_DICE, userDiceB, b, j, rejectedB, bytes1, bytes2, hmacSha256).commitments
  {
    AskShift(a, i, b, j, THROW_OPTIONS);
    var answerA := Ask(a, i, THROW_OPTIONS);
    if answerA.Selected? {
      AskShift(a, answerA.next, b, Ask(b, j, THROW_OPTIONS).next, THROW_OPTIONS);
    }
  }

  /** The printed sum of a throw: NaN for a NaN answer, else a value in 0..5 congruent to secret + answer. */
  predicate SumInRange(t: Throw) {
    (t.userNumber.NaN? && t.combined.NaN?) ||
    (t.userNumber.Num? && 0 <= t.userNumber.value <= 5 && t.combined.Num? && 0 <= t.combined.value <= 5 &&
     (t.secret + t.userNumber.value - t.combined.value) % 6 == 0)
  }

  lemma SumInRangeOfAnswer(secret: nat, answer: string, n: JsNumber, face: Option<int>)
    requires n.NaN? || (n.Num? && 0 <= n.value <= 5)
    ensures SumInRange(Throw(secret, answer, n, AddModulo6(secret, n), face))
  {
  }

  /**
   * The throws of a finished run as the source computes them: the computer's
   * face is `COMPUTER_DICE[secret of throw 1]`, the player's face is
   * `USER_DICE[the player's second number]`, the sums are printed but pick no
   * face, and the verdict compares the two faces.
   */
  ghost predicate ThrowsAsWritten(run: Run) {
    |run.throws| == 2 && |run.commitments| >= 2 &&
    run.throws[0].secret == run.commitments[|run.commitments| - 2].randomInt <= 5 &&
    run.throws[1].secret == run.commitments[|run.commitments| - 1].randomInt <= 5 &&
    run.throws[0].face == Some(COMPUTER_DICE[run.throws[0].secret]) &&
    run.throws[1].face == Face(USER_DICE, run.throws[1].userNumber) &&
    run.outcome == Finished(Compare(run.throws[1].face, run.throws[0].face)) &&
    SumInRange(run.throws[0]) && SumInRange(run.throws[1])
  }

  /** Each throw's number is `parseInt` of an answer the throw prompt accepts. */
  ghost predicate AnswersParsed(run: Run) {
    forall t | t in run.throws :: t.answer in THROW_OPTIONS && t.userNumber == ParseInt(t.answer)
  }

  /** A finished run made three commitments and resolved its throws as written. */
  lemma FinishedRun(input: seq<string>, bytes0: seq<Byte>, bytes1: seq<Byte>, bytes2: seq<Byte>, hmacSha256: Hmac)
    requires Draws(bytes0, bytes1, bytes2)
    requires GameResult(input, bytes0, bytes1, bytes2, hmacSha256).outcome.Finished?
    ensures var run := GameResult(input, bytes0, bytes1, bytes2, hmacSha256);
      |run.commitments| == 3 && ThrowsAsWritten(run) && AnswersParsed(run)
  {
    var guess := Ask(input, 0, BINARY_OPTIONS);
    var c0 := GenerateRandomNumber(1, bytes0, hmacSha256);
    var rest := DiceGameResult(USER_DICE, COMPUTER_DICE, input, guess.next, bytes1, bytes2, hmacSha256);
    assert GameResult(input, bytes0, bytes1, bytes2, hmacSha256)
        == rest.(commitments := [c0] + rest.commitments,
                 firstMoveWon := Some(ParseInt(guess.selection) == Num(c0.randomInt)),
                 rejected := guess.rejected + rest.rejected);
    DiceGameFinished(input, guess.next, bytes1, bytes2, hmacSha256);
    FinishedAfterFirstMove(rest, c0, Some(ParseInt(guess.selection) == Num(c0.randomInt)), guess.rejected + rest.rejected);
  }

  /** Putting the first-move commitment in front keeps the throws as they were resolved. */
  lemma FinishedAfterFirstMove(rest: Run, c0: Commitment, won: Option<bool>, rejected: nat)
    requires ThrowsAsWritten(rest) && AnswersParsed(rest)
    ensures ThrowsAsWritten(rest.(commitments := [c0] + rest.commitments, firstMoveWon := won, rejected := rejected))
    ensures AnswersParsed(rest.(commitments := [c0] + rest.commitments, firstMoveWon := won, rejected := rejected))
  {
    var run := rest.(commitments := [c0] + rest.commitments, firstMoveWon := won, rejected := rejected);
    assert run.commitments[|run.commitments| - 2] == rest.commitments[|rest.commitments| - 2];
    assert run.commitments[|run.commitments| - 1] == rest.commitments[|rest.commitments| - 1];
  }

  lemma DiceGameFinished(input: seq<string>, from: nat, bytes1: seq<Byte>, bytes2: seq<Byte>, hmacSha256: Hmac)
    requires from <= |input| && |bytes1| == SECRET_LENGTH && |bytes2| == SECRET_LENGTH
    requires DiceGameResult(USER_DICE, COMPUTER_DICE, input, from, bytes1, bytes2, hmacSha256).outcome.Finished?
    ensures |DiceGameResult(USER_DICE, COMPUTER_DICE, input, from, bytes1, bytes2, hmacSha256).commitments| == 2
    ensures ThrowsAsWritten(DiceGameResult(USER_DICE, COMPUTER_DICE, input, from, bytes1, bytes2, hmacSha256))
    ensures AnswersParsed(DiceGameResult(USER_DICE, COMPUTER_DICE, input, from, bytes1, bytes2, hmacSha256))
  {
    var choice := Ask(input, from, BINARY_OPTIONS);
    var userDice := if choice.selection == "0" then USER_DICE else COMPUTER_DICE;
    ThrowRoundsFinished(userDice, input, choice.next, choice.rejected, bytes1, bytes2, hmacSha256);
  }

  lemma ThrowRoundsFinished(userDice: seq<int>, input: seq<string>, from: nat, rejected: nat,
                            bytes1: seq<Byte>, bytes2: seq<Byte>, hmacSha256: Hmac)
    requires from <= |input| && |bytes1| == SECRET_LENGTH && |bytes2| == SECRET_LENGTH
    requires ThrowRounds(USER_DICE, COMPUTER_DICE, userDice, input, from, rejected, bytes1, bytes2, hmacSha256).outcome.Finished?
    ensures |ThrowRounds(USER_DICE, COMPUTER_DICE, userDice, input, from, rejected, bytes1, bytes2, hmacSha256).commitments| == 2
    ensures ThrowsAsWritten(ThrowRounds(USER_DICE, COMPUTER_DICE, userDice, input, from, rejected, bytes1, bytes2, hmacSha256))
    ensures AnswersParsed(ThrowRounds(USER_DICE, COMPUTER_DICE, userDice, input, from, rejected, bytes1, bytes2, hmacSha256))
  {
    var c1 := GenerateRandomNumber(5, bytes1, hmacSha256);
    var answer1 := Ask(input, from, THROW_OPTIONS);
    var n1 := ParseInt(answer1.selection);
    ParseThrowOption(answer1.selection);
    var t1 := Throw(c1.randomInt, answer1.selection, n1, AddModulo6(c1.randomInt, n1), Face(COMPUTER_DICE, Num(c1.randomInt)));
    SumInRangeOfAnswer(c1.randomInt, answer1.selection, n1, Face(COMPUTER_DICE, Num(c1.randomInt)));
    assert ThrowRounds(USER_DICE, COMPUTER_DICE, userDice, input, from, rejected, bytes1, bytes2, hmacSha256)
        == SecondThrow(USER_DICE, userDice, c1, t1, input, answer1.next, rejected + answer1.rejected, bytes2, hmacSha256);
    SecondThrowFinished(userDice, c1, t1, input, answer1.next, rejected + answer1.rejected, bytes2, hmacSha256);
  }

  lemma SecondThrowFinished(userDice: seq<int>, c1: Commitment, t1: Throw, input: seq<string>, from: nat, rejected: nat,
                            bytes2: seq<Byte>, hmacSha256: Hmac)
    requires from <= |input| && |bytes2| == SECRET_LENGTH
    requires SecondThrow(USER_DICE, userDice, c1, t1, input, from, rejected, bytes2, hmacSha256).outcome.Finished?
    ensures var run := SecondThrow(USER_DICE, userDice, c1, t1, input, from, rejected, bytes2, hmacSha256);
      run.throws == [t1, run.throws[1]] &&
      run.commitments == [c1, GenerateRandomNumber(5, bytes2, hmacSha256)] &&
      run.throws[1].secret == run.commitments[1].randomInt <= 5 &&
      run.throws[1].face == Face(USER_DICE, run.throws[1].userNumber) &&
      run.outcome == Finished(Compare(run.throws[1].face, t1.face)) && SumInRange(run.throws[1]) &&
      run.throws[1].answer in THROW_OPTIONS && run.throws[1].userNumber == ParseInt(run.throws[1].answer)
  {
    var answer2 := Ask(input, from, THROW_OPTIONS);
    ParseThrowOption(answer2.selection);
  }

  /**
   * The second throw's answer is the last line the run read, trimmed.
   */
  lemma SecondAnswerIsLastLine(input: seq<string>, bytes0: seq<Byte>, bytes1: seq<Byte>, bytes2: seq<Byte>, hmacSha256: Hmac)
    requires Draws(bytes0, bytes1, bytes2)
    requires GameResult(input, bytes0, bytes1, bytes2, hmacSha256).outcome.Finished?
    ensures LastAnswerRead(GameResult(input, bytes0, bytes1, bytes2, hmacSha256), input)
  {
    var guess := Ask(input, 0, BINARY_OPTIONS);
    var rest := DiceGameResult(USER_DICE, COMPUTER_DICE, input, guess.next, bytes1, bytes2, hmacSha256);
    assert GameResult(input, bytes0, bytes1, bytes2, hmacSha256).throws == rest.throws;
    assert GameResult(input, bytes0, bytes1, bytes2, hmacSha256).next == rest.next;
    DiceGameLastLine(input, guess.next, bytes1, bytes2, hmacSha256);
  }

  lemma DiceGameLastLine(input: seq<string>, from: nat, bytes1: seq<Byte>, bytes2: seq<Byte>, hmacSha256: Hmac)
    requires from <= |input| && |bytes1| == SECRET_LENGTH && |bytes2| == SECRET_LENGTH
    requires DiceGameResult(USER_DICE, COMPUTER_DICE, input, from, bytes1, bytes2, hmacSha256).outcome.Finished?
    ensures LastAnswerRead(DiceGameResult(USER_DICE, COMPUTER_DICE, input, from, bytes1, bytes2, hmacSha256), input)
  {
    var choice := Ask(input, from, BINARY_OPTIONS);
    var userDice := if choice.selection == "0" then USER_DICE else COMPUTER_DICE;
    ThrowRoundsLastLine(userDice, input, choice.next, choice.rejected, bytes1, bytes2, hmacSha256);
  }

  lemma ThrowRoundsLastLine(userDice: seq<int>, input: seq<string>, from: nat, rejected: nat,
                            bytes1: seq<Byte>, bytes2: seq<Byte>, hmacSha256: Hmac)
    requires from <= |input| && |bytes1| == SECRET_LENGTH && |bytes2| == SECRET_LENGTH
    requires ThrowRounds(USER_DICE, COMPUTER_DICE, userDice, input, from, rejected, bytes1, bytes2, hmacSha256).outcome.Finished?
    ensures LastAnswerRead(ThrowRounds(USER_DICE, COMPUTER_DICE, userDice, input, from, rejected, bytes1, bytes2, hmacSha256), input)
  {
    var c1 := GenerateRandomNumber(5, bytes1, hmacSha256);
    var answer1 := Ask(input, from, THROW_OPTIONS);
    var n1 := ParseInt(answer1.selection);
    var t1 := Throw(c1.randomInt, answer1.selection, n1, AddModulo6(c1.randomInt, n1), Face(COMPUTER_DICE, Num(c1.randomInt)));
    var run := SecondThrow(USER_DICE, userDice, c1, t1, input, answer1.next, rejected + answer1.rejected, bytes2, hmacSha256);
    assert ThrowRounds(USER_DICE, COMPUTER_DICE, userDice, input, from, rejected, bytes1, bytes2, hmacSha256) == run;
    SecondThrowLastLine(userDice, c1, t1, input, answer1.next, rejected + answer1.rejected, bytes2, hmacSha256);
    assert LastAnswerRead(run, input);
  }

  /** The run has two throws, and the second one's answer is the trimmed last line it read. */
  ghost predicate LastAnswerRead(run: Run, input: seq<string>) {
    |run.throws| == 2 && 0 < run.next <= |input| && run.throws[1].answer == Trim(input[run.next - 1])
  }

  lemma SecondThrowLastLine(userDice: seq<int>, c1: Commitment, t1: Throw, input: seq<string>, from: nat, rejected: nat,
                            bytes2: seq<Byte>, hmacSha256: Hmac)
    requires from <= |input| && |bytes2| == SECRET_LENGTH
    requires SecondThrow(USER_DICE, userDice, c1, t1, input, from, rejected, bytes2, hmacSha256).outcome.Finished?
    ensures LastAnswerRead(SecondThrow(USER_DICE, userDice, c1, t1, input, from, rejected, bytes2, hmacSha256), input)
  {
    var answer2 := Ask(input, from, THROW_OPTIONS);
    assert Trim(input[answer2.next - 1]) == answer2.selection;
  }

  /**
   * "X" or "?" at the second throw prompt is not handled: `parseInt` gives
   * NaN, the player's face is undefined, and the run is reported as a tie.
   */
  lemma SecondThrowControlTies(input: seq<string>, bytes0: seq<Byte>, bytes1: seq<Byte>, bytes2: seq<Byte>, hmacSha256: Hmac)
    requires Draws(bytes0, bytes1, bytes2)
    requires var run := GameResult(input, bytes0, bytes1, bytes2, hmacSha256);
      run.outcome.Finished? && |run.throws| == 2 && IsControl(run.throws[1].answer)
    ensures var run := GameResult(input, bytes0, bytes1, bytes2, hmacSha256);
      run.throws[1].userNumber == NaN && run.throws[1].face == None && run.outcome == Finished(Tie)
  {
    FinishedRun(input, bytes0, bytes1, bytes2, hmacSha256);
    ResolvedControlTies(GameResult(input, bytes0, bytes1, bytes2, hmacSha256));
  }

  /** `SecondThrowControlTies` for any run whose throws are resolved as written. */
  lemma ResolvedControlTies(run: Run)
    requires ThrowsAsWritten(run) && AnswersParsed(run) && IsControl(run.throws[1].answer)
    ensures run.throws[1].userNumber == NaN && run.throws[1].face == None && run.outcome == Finished(Tie)
  {
    assert run.throws[1] in run.throws;
    ParseThrowOption(run.throws[1].answer);
  }

  /**
   * Since the player's face is `USER_DICE[n]` for the player's own number n,
   * answering "4" or "5" at the second throw prompt always wins: 9 beats
   * every face of `COMPUTER_DICE`, whatever the random bytes.
   */
  lemma SecondThrowHighAnswerWins(input: seq<string>, bytes0: seq<Byte>, bytes1: seq<Byte>, bytes2: seq<Byte>, hmacSha256: Hmac)
    requires Draws(bytes0, bytes1, bytes2)
    requires var run := GameResult(input, bytes0, bytes1, bytes2, hmacSha256);
      run.outcome.Finished? && |run.throws| == 2 && run.throws[1].answer in {"4", "5"}
    ensures GameResult(input, bytes0, bytes1, bytes2, hmacSha256).outcome == Finished(UserWins)
  {
    FinishedRun(input, bytes0, bytes1, bytes2, hmacSha256);
    ResolvedHighAnswerWins(GameResult(input, bytes0, bytes1, bytes2, hmacSha256));
  }

  /** `SecondThrowHighAnswerWins` for any run whose throws are resolved as written. */
  lemma ResolvedHighAnswerWins(run: Run)
    requires ThrowsAsWritten(run) && AnswersParsed(run) && run.throws[1].answer in {"4", "5"}
    ensures run.outcome == Finished(UserWins)
  {
    assert run.throws[1] in run.throws;
    ParseThrowOption(run.throws[1].answer);
    assert run.throws[1].face == Some(9);
    NineBeatsComputerDice(run.throws[0].secret);
  }

  /** 9 is above every face of `COMPUTER_DICE`. */
  lemma NineBeatsComputerDice(secret: nat)
    requires secret < |COMPUTER_DICE|
    ensures Compare(Some(9), Some(COMPUTER_DICE[secret])) == UserWins
  {
    assert COMPUTER_DICE[secret] in COMPUTER_DICE;
  }

  /**
   * When the second answer is a digit, both face lookups stay on their die:
   * the computer's index is its own secret in 0..5 and the player's is that
   * digit, so the verdict is decided by two real face values.
   */
  lemma DigitAnswersGiveFaces(input: seq<string>, bytes0: seq<Byte>, bytes1: seq<Byte>, bytes2: seq<Byte>, hmacSha256: Hmac)
    requires Draws(bytes0, bytes1, bytes2)
    requires var run := GameResult(input, bytes0, bytes1, bytes2, hmacSha256);
      run.outcome.Finished? && |run.throws| == 2 && !IsControl(run.throws[1].answer)
    ensures var run := GameResult(input, bytes0, bytes1, bytes2, hmacSha256);
      run.throws[0].face.Some? && run.throws[0].face.value in COMPUTER_DICE &&
      run.throws[1].face.Some? && run.throws[1].face.value in USER_DICE
  {
    FinishedRun(input, bytes0, bytes1, bytes2, hmacSha256);
    ResolvedDigitFaces(GameResult(input, bytes0, bytes1, bytes2, hmacSha256));
  }

  /** `DigitAnswersGiveFaces` for any run whose throws are resolved as written. */
  lemma ResolvedDigitFaces(run: Run)
    requires ThrowsAsWritten(run) && AnswersParsed(run) && !IsControl(run.throws[1].answer)
    ensures run.throws[0].face.Some? && run.throws[0].face.value in COMPUTER_DICE
    ensures run.throws[1].face.Some? && run.throws[1].face.value in USER_DICE
  {
    assert run.throws[1] in run.throws;
    var t := run.throws[1];
    ParseThrowOption(t.answer);
    assert t.userNumber == Num(t.answer[0] as int - '0' as int);
    assert 0 <= t.userNumber.value < |USER_DICE|;
    assert run.throws[0].face == Some(COMPUTER_DICE[run.throws[0].secret]);
  }

  /**
   * Every commitment shown in a run passes the player's check after its
   * reveal; the first-move value is 0 or 1 and the throw values are in 0..5.
   */
  lemma CommitmentsCheckOut(input: seq<string>, bytes0: seq<Byte>, bytes1: seq<Byte>, bytes2: seq<Byte>, hmacSha256: Hmac)
    requires Draws(bytes0, bytes1, bytes2)
    ensures var cs := GameResult(input, bytes0, bytes1, bytes2, hmacSha256).commitments;
      1 <= |cs| <= 3 &&
      forall k | 0 <= k < |cs| ::
        Verifies(cs[k].hmac, cs[k].key, hmacSha256) && cs[k].randomInt <= (if k == 0 then 1 else 5)
  {
    CommitmentsMade(input, bytes0, bytes1, bytes2, hmacSha256);
    DrawnCommitmentsCheckOut(GameResult(input, bytes0, bytes1, bytes2, hmacSha256).commitments,
                             bytes0, bytes1, bytes2, hmacSha256);
  }

  /** `cs` is the first, second and third draw's commitment, in that order, as far as it goes. */
  ghost predicate DrawnFrom(cs: seq<Commitment>, bytes0: seq<Byte>, bytes1: seq<Byte>, bytes2: seq<Byte>, hmacSha256: Hmac)
    requires Draws(bytes0, bytes1, bytes2)
  {
    1 <= |cs| <= 3 && cs[0] == GenerateRandomNumber(1, bytes0, hmacSha256) &&
    (|cs| >= 2 ==> cs[1] == GenerateRandomNumber(5, bytes1, hmacSha256)) &&
    (|cs| == 3 ==> cs[2] == GenerateRandomNumber(5, bytes2, hmacSha256))
  }

  lemma DrawnCommitmentsCheckOut(cs: seq<Commitment>, bytes0: seq<Byte>, bytes1: seq<Byte>, bytes2: seq<Byte>, hmacSha256: Hmac)
    requires Draws(bytes0, bytes1, bytes2) && DrawnFrom(cs, bytes0, bytes1, bytes2, hmacSha256)
    ensures forall k | 0 <= k < |cs| ::
      Verifies(cs[k].hmac, cs[k].key, hmacSha256) && cs[k].randomInt <= (if k == 0 then 1 else 5)
  {
    forall k | 0 <= k < |cs|
      ensures Verifies(cs[k].hmac, cs[k].key, hmacSha256) && cs[k].randomInt <= (if k == 0 then 1 else 5)
    {
      if k == 0 {
        assert cs[k] == GenerateRandomNumber(1, bytes0, hmacSha256);
      } else if k == 1 {
        assert cs[k] == GenerateRandomNumber(5, bytes1, hmacSha256);
      } else {
        assert cs[k] == GenerateRandomNumber(5, bytes2, hmacSha256);
      }
    }
  }

  /** A run's commitments are the first, second and third draw, in that order, as far as it got. */
  lemma CommitmentsMade(input: seq<string>, bytes0: seq<Byte>, bytes1: seq<Byte>, bytes2: seq<Byte>, hmacSha256: Hmac)
    requires Draws(bytes0, bytes1, bytes2)
    ensures DrawnFrom(GameResult(input, bytes0, bytes1, bytes2, hmacSha256).commitments, bytes0, bytes1, bytes2, hmacSha256)
  {
    var guess := Ask(input, 0, BINARY_OPTIONS);
    var c0 := GenerateRandomNumber(1, bytes0, hmacSha256);
    if guess.Selected? && !IsControl(guess.selection) {
      var rest := DiceGameResult(USER_DICE, COMPUTER_DICE, input, guess.next, bytes1, bytes2, hmacSha256);
      assert GameResult(input, bytes0, bytes1, bytes2, hmacSha256).commitments == [c0] + rest.commitments;
      DiceGameCommitments(input, guess.next, bytes1, bytes2, hmacSha256);
    }
  }

  lemma DiceGameCommitments(input: seq<string>, from: nat, bytes1: seq<Byte>, bytes2: seq<Byte>, hmacSha256: Hmac)
    requires from <= |input| && |bytes1| == SECRET_LENGTH && |bytes2| == SECRET_LENGTH
    ensures var cs := DiceGameResult(USER_DICE, COMPUTER_DICE, input, from, bytes1, bytes2, hmacSha256).commitments;
      |cs| <= 2 && (|cs| >= 1 ==> cs[0] == GenerateRandomNumber(5, bytes1, hmacSha256)) &&
      (|cs| == 2 ==> cs[1] == GenerateRandomNumber(5, bytes2, hmacSha256))
  {
    var choice := Ask(input, from, BINARY_OPTIONS);
    if choice.Selected? && !IsControl(choice.selection) {
      var userDice := if choice.selection == "0" then USER_DICE else COMPUTER_DICE;
      ThrowRoundsCommitments(userDice, input, choice.next, choice.rejected, bytes1, bytes2, hmacSha256);
    }
  }

  lemma ThrowRoundsCommitments(userDice: seq<int>, input: seq<string>, from: nat, rejected: nat,
                               bytes1: seq<Byte>, bytes2: seq<Byte>, hmacSha256: Hmac)
    requires from <= |input| && |bytes1| == SECRET_LENGTH && |bytes2| == SECRET_LENGTH
    ensures var cs := ThrowRounds(USER_DICE, COMPUTER_DICE, userDice, input, from, rejected, bytes1, bytes2, hmacSha256).commitments;
      1 <= |cs| <= 2 && cs[0] == GenerateRandomNumber(5, bytes1, hmacSha256) &&
      (|cs| == 2 ==> cs[1] == GenerateRandomNumber(5, bytes2, hmacSha256))
  {
  }

  /**
   * Every line a run reads is either an accepted answer or rejected with one
   * "Invalid selection" error; a run that is not left waiting stops reading at
   * its last answer, and one left waiting has read the whole script.
   */
  lemma LinesAccountedFor(input: seq<string>, bytes0: seq<Byte>, bytes1: seq<Byte>, bytes2: seq<Byte>, hmacSha256: Hmac)
    requires Draws(bytes0, bytes1, bytes2)
    ensures var run := GameResult(input, bytes0, bytes1, bytes2, hmacSha256);
      run.rejected + AnswersGiven(run.outcome) == run.next <= |input| &&
      (run.outcome.InputEnded? ==> run.next == |input|)
  {
    var guess := Ask(input, 0, BINARY_OPTIONS);
    if guess.Selected? && !IsControl(guess.selection) {
      DiceGameLines(input, guess.next, bytes1, bytes2, hmacSha256);
    }
  }

  lemma DiceGameLines(input: seq<string>, from: nat, bytes1: seq<Byte>, bytes2: seq<Byte>, hmacSha256: Hmac)
    requires from <= |input| && |bytes1| == SECRET_LENGTH && |bytes2| == SECRET_LENGTH
    ensures var run := DiceGameResult(USER_DICE, COMPUTER_DICE, input, from, bytes1, bytes2, hmacSha256);
      from <= run.next <= |input| && run.rejected + AnswersGiven(run.outcome) == 1 + (run.next - from) &&
      (run.outcome.InputEnded? ==> run.next == |input|) && run.outcome != InputEnded(GuessPrompt)
  {
    var choice := Ask(input, from, BINARY_OPTIONS);
    if choice.Selected? && !IsControl(choice.selection) {
      var userDice := if choice.selection == "0" then USER_DICE else COMPUTER_DICE;
      ThrowRoundsLines(userDice, input, choice.next, choice.rejected, bytes1, bytes2, hmacSha256);
    }
  }

  lemma ThrowRoundsLines(userDice: seq<int>, input: seq<string>, from: nat, rejected: nat,
                         bytes1: seq<Byte>, bytes2: seq<Byte>, hmacSha256: Hmac)
    requires from <= |input| && |bytes1| == SECRET_LENGTH && |bytes2| == SECRET_LENGTH
    ensures var run := ThrowRounds(USER_DICE, COMPUTER_DICE, userDice, input, from, rejected, bytes1, bytes2, hmacSha256);
      from <= run.next <= |input| && run.rejected + AnswersGiven(run.outcome) == rejected + 2 + (run.next - from) &&
      (run.outcome.InputEnded? ==> run.next == |input|) &&
      (run.outcome.Finished? || run.outcome == InputEnded(FirstThrowPrompt) || run.outcome == InputEnded(SecondThrowPrompt))
  {
    var c1 := GenerateRandomNumber(5, bytes1, hmacSha256);
    var answer1 := Ask(input, from, THROW_OPTIONS);
    if answer1.Selected? {
      var n1 := ParseInt(answer1.selection);
      var t1 := Throw(c1.randomInt, answer1.selection, n1, AddModulo6(c1.randomInt, n1), Face(COMPUTER_DICE, Num(c1.randomInt)));
      SecondThrowLines(userDice, c1, t1, input, answer1.next, rejected + answer1.rejected, bytes2, hmacSha256);
    }
  }

  lemma SecondThrowLines(userDice: seq<int>, c1: Commitment, t1: Throw, input: seq<string>, from: nat, rejected: nat,
                         bytes2: seq<Byte>, hmacSha256: Hmac)
    requires from <= |input| && |bytes2| == SECRET_LENGTH
    ensures var run := SecondThrow(USER_DICE, userDice, c1, t1, input, from, rejected, bytes2, hmacSha256);
      from <= run.next <= |input| && run.rejected + AnswersGiven(run.outcome) == rejected + 3 + (run.next - from) &&
      (run.outcome.InputEnded? ==> run.next == |input|) &&
      (run.outcome.Finished? || run.outcome == InputEnded(SecondThrowPrompt))
  {
  }

  /**
   * A run that does not wait for more input reads nothing past its last
   * answer: appending lines to the script leaves it unchanged. In particular
   * no prompt follows an "X" or "?" answer at the first two prompts.
   */
  lemma RunIgnoresLaterLines(input: seq<string>, more: seq<string>,
                             bytes0: seq<Byte>, bytes1: seq<Byte>, bytes2: seq<Byte>, hmacSha256: Hmac)
    requires Draws(bytes0, bytes1, bytes2)
    requires !GameResult(input, bytes0, bytes1, bytes2, hmacSha256).outcome.InputEnded?
    ensures GameResult(input + more, bytes0, bytes1, bytes2, hmacSha256) == GameResult(input, bytes0, bytes1, bytes2, hmacSha256)
  {
    var guess := Ask(input, 0, BINARY_OPTIONS);
    AskIgnoresLaterLines(input, more, 0, BINARY_OPTIONS);
    if !IsControl(guess.selection) {
      DiceGameIgnoresLaterLines(input, more, guess.next, bytes1, bytes2, hmacSha256);
    }
  }

  lemma DiceGameIgnoresLaterLines(input: seq<string>, more: seq<string>, from: nat,
                                  bytes1: seq<Byte>, bytes2: seq<Byte>, hmacSha256: Hmac)
    requires from <= |input| && |bytes1| == SECRET_LENGTH && |bytes2| == SECRET_LENGTH
    requires !DiceGameResult(USER_DICE, COMPUTER_DICE, input, from, bytes1, bytes2, hmacSha256).outcome.InputEnded?
    ensures DiceGameResult(USER_DICE, COMPUTER_DICE, input + more, from, bytes1, bytes2, hmacSha256)
            == DiceGameResult(USER_DICE, COMPUTER_DICE, input, from, bytes1, bytes2, hmacSha256)
  {
    var choice := Ask(input, from, BINARY_OPTIONS);
    AskIgnoresLaterLines(input, more, from, BINARY_OPTIONS);
    if !IsControl(choice.selection) {
      var userDice := if choice.selection == "0" then USER_DICE else COMPUTER_DICE;
      ThrowRoundsIgnoreLaterLines(userDice, input, more, choice.next, choice.rejected, bytes1, bytes2, hmacSha256);
    }
  }

  lemma ThrowRoundsIgnoreLaterLines(userDice: seq<int>, input: seq<string>, more: seq<string>, from: nat, rejected: nat,
                                    bytes1: seq<Byte>, bytes2: seq<Byte>, hmacSha256: Hmac)
    requires from <= |input| && |bytes1| == SECRET_LENGTH && |bytes2| == SECRET_LENGTH
    requires !ThrowRounds(USER_DICE, COMPUTER_DICE, userDice, input, from, rejected, bytes1, bytes2, hmacSha256).outcome.InputEnded?
    ensures ThrowRounds(USER_DICE, COMPUTER_DICE, userDice, input + more, from, rejected, bytes1, bytes2, hmacSha256)
            == ThrowRounds(USER_DICE, COMPUTER_DICE, userDice, input, from, rejected, bytes1, bytes2, hmacSha256)
  {
    var c1 := GenerateRandomNumber(5, bytes1, hmacSha256);
    var answer1 := Ask(input, from, THROW_OPTIONS);
    AskIgnoresLaterLines(input, more, from, THROW_OPTIONS);
    var n1 := ParseInt(answer1.selection);
    var t1 := Throw(c1.randomInt, answer1.selection, n1, AddModulo6(c1.randomInt, n1), Face(COMPUTER_DICE, Num(c1.randomInt)));
    assert ThrowRounds(USER_DICE, COMPUTER_DICE, userDice, input, from, rejected, bytes1, bytes2, hmacSha256)
        == SecondThrow(USER_DICE, userDice, c1, t1, input, answer1.next, rejected + answer1.rejected, bytes2, hmacSha256);
    assert ThrowRounds(USER_DICE, COMPUTER_DICE, userDice, input + more, from, rejected, bytes1, bytes2, hmacSha256)
        == SecondThrow(USER_DICE, userDice, c1, t1, input + more, answer1.next, rejected + answer1.rejected, bytes2, hmacSha256);
    AskIgnoresLaterLines(input, more, answer1.next, THROW_OPTIONS);
  }
}
