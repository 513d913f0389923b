# Dice game: a verified model of the game logic

`dicegame.js` is a console dice game with a provably fair protocol. Before
each random choice the program commits to its secret. It draws 32 random
bytes, reduces the first byte into `0..maxValue`, and shows the
HMAC-SHA256 keyed with the bytes. After the player answers, it reveals the
value and the bytes as a hex key, so the player can recompute the HMAC.

A run goes through four prompts:

1. The player guesses the first-move value (0 or 1).
2. The player chooses a die.
3. The player adds a number modulo 6 to the computer's first throw.
4. The player adds a number modulo 6 to the computer's second throw.

The run ends with "You win", "I win" or "It's a tie". "X" (exit) or "?"
(help) at the first two prompts ends the run.

This project models that logic in Dafny:

- The terminal is a script of input lines (`seq<string>`).
- Each call to `crypto.randomBytes(32)` is a byte sequence passed in.
- HMAC-SHA256 is a function parameter (`Commitments.Hmac`).

The modules follow the source:

- `Hex`: Node's hex encoding and a decoder for it.
- `JsText`: the JavaScript built-ins the game relies on. These are `trim`, `parseInt(s, 10)` with its NaN, and the truncating `%`.
- `Commitments`: `generateRandomNumber` and the player's check of a revealed key.
- `Prompt`: `promptSelection`, an imperative validate-and-retry loop. It is proved equal to the reference function `Ask`.
- `DiceGame`: `playDiceGame` and `main`. They are methods over the script, proved equal to the reference functions `DiceGameResult` and `GameResult`.
- `GameProperties`: what a whole run promises, stated about `GameResult`.

The model reproduces the code as written, including these behaviours:

- The faces are not picked by the combined sums. The computer's face is `dice2[computerThrow1.randomInt]` (dicegame.js:66). The player's face is `dice1[userInput2]` (dicegame.js:82). The sums `(randomInt + userInput) % 6` are only printed. A verbal description of the game could say the combined result picks the face; the code does not do this, and the model follows the code. As a result, answering "4" or "5" at the second throw always wins (`GameProperties.SecondThrowHighAnswerWins`).
- Neither the dice choice nor the first-move result changes the throws. The player always throws `[2,2,4,4,9,9]` and the computer always throws `[6,8,1,1,8,6]`.
- "X" and "?" are valid answers at the throw prompts, but nothing handles them there. `parseInt` turns them into NaN, so the printed sum is NaN. At the first throw that is all: the reported face is the computer's `dice2[computerThrow1.randomInt]` (dicegame.js:66), which is always defined. At the second throw the player's face `dice1[NaN]` (dicegame.js:82) is `undefined`, both comparisons are false, and the run reports a tie.
- The digest is `createHmac('sha256', randomBytes).digest('hex')` (dicegame.js:16) with no `update` call. It is HMAC-SHA256 keyed with the bytes over the empty message, not an HMAC of the bytes keyed with themselves. A description of the protocol as a self-keyed HMAC (key and message both the bytes) would differ here; the model follows the code, and the player's check recomputes the HMAC of the empty message.
- "?" prints a help line and ends the run, just like "X".

## Model

| member | source | states |
|---|---|---|
| Hex.Encode | dicegame.js:17 | `Buffer.toString('hex')`: two hex digits per byte, all lower-case hex digits |
| Hex.DecodeEncode | dicegame.js:17 | decoding the hex key gives back exactly the bytes it encodes |
| Hex.EncodeDecode | dicegame.js:17 | any string the decoder accepts is the encoding of what it decodes to |
| Hex.DecodeDefined | dicegame.js:17 | the decoder accepts exactly the even-length strings of lower-case hex digits |
| Hex.EncodeInjective | dicegame.js:16-17 | two byte sequences with the same hex text are equal |
| Hex.Digit | dicegame.js:17 | the digit of a nibble is a hex digit that reads back as that nibble |
| Commitments.GenerateRandomNumber | dicegame.js:13-19 | the value is in `0..maxValue`; the key has 64 characters and decodes to the random bytes; the hmac is the hex HMAC keyed with the bytes over the empty message, so the (hmac, key) pair passes the player's check, and that check recovers the value |
| Commitments.CommitmentBinds | dicegame.js:16-18 | for an HMAC that is injective on 32-byte keys over the empty message, the generated key is the only key that verifies against the shown HMAC, and the value it reveals is `randomBytes[0] % (maxValue + 1)` |
| JsText.TrimSpec | dicegame.js:24 | `trim` removes whitespace from both ends and nothing else; the result neither starts nor ends with whitespace |
| JsText.TrimStartSpec | dicegame.js:24 | the leading trim drops exactly the leading whitespace |
| JsText.TrimEndSpec | dicegame.js:24 | the trailing trim drops exactly the trailing whitespace |
| JsText.TrimIdempotent | dicegame.js:24 | trimming an already trimmed line changes nothing |
| JsText.ParseInt | dicegame.js:56-62 | `parseInt` of a single digit is that digit; a string starting with a character that is not whitespace, a digit or a sign gives NaN |
| JsText.Rem | dicegame.js:64 | JavaScript `%`: `a == b * trunc(a / b) + r`, where `r` has the sign of `a` and magnitude below `b` |
| Prompt.FirstValid | dicegame.js:23-28 | the index found is a line at or after `from` whose trimmed text is a valid option (that it is the first such line is `FirstValidRejectsEarlier`) |
| Prompt.FirstValidRejectsEarlier | dicegame.js:25-27 | every line before that index is invalid, and every line is invalid when none is found |
| Prompt.Ask | dicegame.js:21-30 | the reply is a valid option equal to the trimmed accepted line; the rejected count is the number of lines read before it, or all remaining lines when the script runs out |
| Prompt.AskRejectsEarlierLines | dicegame.js:25-27 | each line the prompt rejected was invalid, with one error per line |
| Prompt.PromptSelection | dicegame.js:21-30 | the loop returns exactly `Ask`: the first valid trimmed line, with one rejection per invalid line before it |
| Prompt.AskIgnoresLaterLines | dicegame.js:23-24 | a prompt that got an answer reads nothing past it, so appending lines does not change the reply |
| Prompt.AskShift | dicegame.js:23-24 | the reply depends only on the lines from its starting position on |
| DiceGame.AddModulo6 | dicegame.js:64 | `(randomInt + userInput) % 6` is NaN exactly when the player's number is NaN; for a non-negative number it lies in `0..5` and is congruent to the sum modulo 6 |
| DiceGame.Face | dicegame.js:66 | `die[index]` is a face of the die when the index is in range, and `undefined` for NaN or an index out of range |
| DiceGame.Compare | dicegame.js:85-91 | exactly one of the three verdicts: win when the player's face is greater, lose when it is smaller, tie otherwise (including when a face is `undefined`) |
| DiceGame.PlayDiceGame | dicegame.js:32-94 | the method computes exactly the reference run `DiceGameResult` |
| DiceGame.RunGame | dicegame.js:96-134 | the method computes exactly the reference run `GameResult` |
| GameProperties.ParseThrowOption | dicegame.js:56-62 | `parseInt` of a throw option is that digit, in 0..5, or NaN for "X" and "?" |
| GameProperties.GuessControlEndsRun | dicegame.js:108-116 | "X" or "?" at the guess prompt ends the run there: only the first-move commitment, no first-move result, no throw, no further line read |
| GameProperties.DiceControlEndsRun | dicegame.js:40-48 | "X" or "?" at the dice prompt ends the run there: no throw commitment, no throw, no further line read |
| GameProperties.FirstMoveRule | dicegame.js:118 | the first move is won exactly when the guess equals the committed bit `randomBytes[0] % 2` |
| GameProperties.ThrowsIgnoreEarlyAnswers | dicegame.js:50 | the throws, commitments and outcome do not depend on the guess or the dice choice, only on the lines after them |
| GameProperties.FinishedRun | dicegame.js:53-91 | a finished run made three commitments. The computer's face is `COMPUTER_DICE[secret 1]`, the player's face is `USER_DICE[player's second number]`, each printed sum is in 0..5 (or NaN), and the verdict compares the faces |
| GameProperties.SecondAnswerIsLastLine | dicegame.js:72-78 | the second throw's answer is the trimmed last line the run read |
| GameProperties.SecondThrowControlTies | dicegame.js:72-91 | "X" or "?" at the second throw gives NaN and an `undefined` face, and the run is reported as a tie |
| GameProperties.SecondThrowHighAnswerWins | dicegame.js:82-86 | answering "4" or "5" at the second throw wins whatever the random bytes, because 9 beats every computer face |
| GameProperties.NineBeatsComputerDice | dicegame.js:125-126 | 9 is above every face of the computer's die |
| GameProperties.DigitAnswersGiveFaces | dicegame.js:64-67 | with a digit as the second answer, both faces are faces of their dice |
| GameProperties.CommitmentsCheckOut | dicegame.js:53-55 | every commitment shown passes the player's check (its key decodes to 32 bytes whose HMAC over the empty message is the shown digest); the first-move value is 0 or 1 and the throw values are in 0..5 |
| GameProperties.CommitmentsMade | dicegame.js:98 | a run's commitments are the first, second and third draws, in order, as far as the run got |
| GameProperties.LinesAccountedFor | dicegame.js:21-30 | every line read is an accepted answer or a rejected one; a run waiting for input has read the whole script |
| GameProperties.RunIgnoresLaterLines | dicegame.js:40-48 | a run that is not waiting for input reads nothing past its last answer, so no prompt follows an "X" or "?" at the first two prompts |

## Left out

- The readline interface, `askQuestion`, Promises, and `rl.close()` are left out. The terminal is a script of lines. A run stops with `InputEnded` when the script runs out while a prompt waits. In the source, the end of input closes readline, the pending `rl.question` promise never resolves, and the program ends without further output. The script also gives each prompt the next line, whereas `rl.question` takes a line only while a question is waiting: when several lines arrive in one chunk (piped stdin), the lines after the one a question took are emitted as `line` events that nothing listens to, and they are lost.
- The text printed with `console.log` and `console.error` is left out. The model records the data that is shown: every commitment, the first-move result, each throw's numbers, sum and face, the verdict, and the number of "Invalid selection" errors.
- `crypto.randomBytes(32)` is left out. The bytes are parameters, one sequence per call.
- The internals of SHA-256 and HMAC (RFC 2104) are left out. HMAC-SHA256 is a function parameter. `Commitments.CommitmentBinds` assumes only that distinct 32-byte keys give distinct digests of the empty message. The player's check (`Commitments.Verifies`) accepts only keys that decode to 32 bytes, so nothing is assumed about keys of other lengths. This assumption is what collision resistance gives in practice; no 32-byte-output function is injective on all inputs.
- The modulo bias of `randomBytes[0] % (maxValue + 1)` is a statistical property and is not stated.
- The third die `[7,5,3,7,5,3]` (dicegame.js:127) is never used, so it is not modelled.
- `Hex.Decode` accepts lower-case digits only, while Node's decoder also accepts upper-case. This is the decoder a player needs for the keys the program prints.
- `JsText.ParseInt` returns an unbounded integer and does not model `-0` or numbers beyond 2^53. Inputs that reach it are always valid options, which are single digits, "X" or "?".
- `Commitments.GenerateRandomNumber`: `maxValue` is a `nat`. The source only calls it with 1 and 5.
