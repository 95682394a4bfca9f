# Hangman on one button — a Dafny model

This project models the game logic of a one-button Hangman for an STM32
Nucleo board with a small colour display (`src/hangman.c`). The player enters
every input as a sequence of button holds. A short hold is a 0 bit, a longer
hold is a 1 bit and a very long hold is a "redo". The first accepted bit is
the least significant one. Eight bits make a guessed character, two bits
choose a menu entry, and one bit answers "stop or continue" after a won round.

The model is functional. Each hold is abstracted to its duration in
milliseconds, and a play session is a pure state machine driven by those
durations.

- `ascii.dfy` (`Ascii`): bytes, ASCII letter classes, storing an `int` into an unsigned `char`.
- `decoder.dfy` (`Decoder`): `getBinaryInput`. It also holds a reference definition (the accepted holds and their binary weight), an encoder, and the round trip between them.
- `letters.dfy` (`Letters`): `isPresent`, `addToGuessed` and `isRoundWon`.
  - The out-of-bounds read of `isPresent` (`guessesOrWord[i+1]`) is modelled as an exact definedness predicate.
  - A pigeonhole lemma shows that the 26-slot guessed array never triggers that read.
- `words.dfy` (`Words`): copying the round's word out of the word list, and the letter-run length of the word.
- `game.dfy` (`Game`): one guess. That covers exit on 0, a lost life for a non-letter, "already guessed", and adding the letter with "correct" or "incorrect".
- `play.dfy` (`Play`): the rounds-and-lives loop of `play`.
  - It is a `Step` function over the phases guessing, choosing and over.
  - `Run` feeds it decoded inputs; `Feed` feeds it raw holds through the decoder.
- `menu.dfy` (`Menu`): the choice dispatch of `menu`.
- `wordlist.dfy` (`WordList`): the built-in word list `"PROFESSOR LAPTOP KNIFE NUCLEO PHYSICS "` and what `play` does with it.

Two behaviours of the code deserve mention.

**Overlong holds are retries.** A hold of 2500 ms or more matches neither
branch of the final classification in `getBinaryInput`. Neither the bit
position nor the sum changes, so the same bit is asked for again. The comment
above the classification (src/hangman.c:122-123, "else the binary bit is off")
suggests a 0 bit, but the branches as written retry. This matches the
"Hold press (BLUE) to redo" line of the menu screen (src/hangman.c:426-428).
The model follows the branches (`Decoder.OverlongIsRetry`).

**The word window does not follow the words.** Each round copies from
`words[wordNum * 13]` and stops before the next space. `wordNum` grows by one
only when a space ended the copy.

- On the built-in list, the rounds are therefore "PROFESSOR", "TOP" (the tail of "LAPTOP"), "LEO" (the tail of "NUCLEO"), and then an empty word forever.
- An empty word is won by any non-zero guess, so from the fourth round on every non-zero guess wins the round at once. A guess of 0 still exits `play` (src/hangman.c:249-250, 311).
- `wordNum` never passes 3, so the "YOU GUESSED IT ALL" branch (`wordNum == 5`) is never taken.

The model keeps this behaviour and proves it (`WordList.Loads`,
`WordList.EmptyWordWonByAnyGuess`, `WordList.PlayNeverAllGuessed`).

`char` is taken to be unsigned, as on the ARM target. A decoded guess is
therefore stored modulo 256 (`Ascii.ToByte`). All comparisons with 65, 90, 97
and 122 are on values 0..255.

## Model

| member | source | states |
|---|---|---|
| Decoder.DecodeLoop | src/hangman.c:84-136 | From hold `i` with `count` bits accepted, the loop yields a value exactly when the input holds `length` accepted holds. The value is the binary weight of the first `length` accepted holds. When it reads any hold, the last hold it reads is an accepted one. |
| Decoder.Decode | src/hangman.c:73-139 | `getBinaryInput(length)` returns a value iff at least `length` holds are not overlong. The value is Σ bit·2^i over the first `length` accepted holds (short = 0, 500..2499 ms = 1). It is below 2^length, and decoding stops right after the last accepted hold. |
| Decoder.OverlongIsRetry | src/hangman.c:125-135 | Inserting a hold of 2500 ms or more anywhere changes neither whether a value is decoded nor the value. |
| Decoder.EncodeRoundTrip | src/hangman.c:125-130 | Entering the bits of `v < 2^n` least significant first, as short and 500 ms holds, decodes back to `v` using exactly `n` holds. |
| Ascii.ToByte | src/hangman.c:245 | Storing the decoded `int` into the unsigned `char` keeps values below 256 and otherwise reduces modulo 256. |
| Letters.IsPresent | src/hangman.c:323-337 | `isPresent` answers true only if the letter occurs in the array. The converse, and its in-bounds conditions, are stated by `Letters.IsPresentRun`, `Letters.IsPresentGuessed` and `Words.IsPresentWord`. |
| Letters.IsPresentRun | src/hangman.c:323-337 | When `k` is the first index ≥ 1 not holding an upper-case letter (k ≤ 26), the scan stays in bounds, and `isPresent` is true iff the letter occurs in `arr[0..k)`. |
| Letters.IsPresentGuessed | src/hangman.c:323-337 | On a guessed array of distinct upper-case letters followed by zeros, `isPresent` of an upper-case letter stays in bounds, even when all 26 slots are full, and is plain membership. |
| Letters.FullGuessedHasAll | src/hangman.c:332 | With all 26 slots holding distinct upper-case letters, every upper-case letter is present. So the scan finds any letter before reading past slot 25. |
| Letters.FreeSlot | src/hangman.c:340-355 | `addToGuessed` returns the first slot holding 0, or 0 when no slot is free. |
| Letters.CoveredCount | src/hangman.c:361-375 | The counting loop never exceeds `n`, and reaches `n` iff every one of the first `n` word positions holds a guessed letter. |
| Letters.IsRoundWon | src/hangman.c:358-382 | `isRoundWon` is true iff every one of the first `length` word bytes is among the guessed letters. |
| Letters.RoundWonMonotone | src/hangman.c:358-382 | A round won with some guessed letters stays won when more letters are guessed. |
| Words.CopyFrom | src/hangman.c:170-177 | The copy yields at most `end - i` bytes, and at least one when a space stopped it. |
| Words.LoadWord | src/hangman.c:158-177 | The word buffer always has 13 bytes, and `wordNum` advances by at most one. |
| Words.LoadWordSpec | src/hangman.c:170-177 | If the copy from `wordNum*13` stops after `m` bytes, the word is those `m` list bytes padded with zeros. `wordNum` advances exactly when the byte after them is a space. |
| Words.RoundLength | src/hangman.c:186-194 | The length is the run of leading ASCII letters, upper or lower case: at most 13, all letters, then a non-letter or the end. |
| Words.IsPresentWord | src/hangman.c:271 | On a word of upper-case letters followed by zeros, `isPresent(guess, word)` stays in bounds and is membership in the round's letters. |
| Game.Normalize | src/hangman.c:257-259 | Any letter, either case, becomes its upper-case form. |
| Game.NormalizeCaseBlind | src/hangman.c:257-259 | An upper-case letter and its lower-case form give the same guess. |
| Game.ApplyGuess | src/hangman.c:249-279 | Exit iff the guess is 0 and "no letter" iff it is a non-zero non-letter. Exit and "already guessed" change nothing. Only "no letter" and "incorrect" cost exactly one life. A new letter is written to the first free slot and no other slot changes. The word and word number never change. |
| Game.GuessStep | src/hangman.c:261-268 | On a round in progress the arrays stay well formed. A letter is "already guessed" iff its upper-case form is among the guessed letters. Otherwise the guessed set grows by exactly that letter. |
| Game.AddKeepsShape | src/hangman.c:267-268 | Writing a new upper-case letter into the first free slot keeps the guessed letters a duplicate-free prefix followed by zeros. It adds exactly that letter. |
| Game.GuessRepeat | src/hangman.c:261-264 | Guessing the same letter again, in either case, is "already guessed" and leaves the state, lives included, unchanged. |
| Game.GuessAgainstWord | src/hangman.c:270-277 | On a canonical word (upper-case letters followed by zeros, as every built-in round is), a new letter is "correct" iff it is among the round's letters, and only an incorrect one costs a life. |
| Play.BeginRound | src/hangman.c:156-177 | A new round clears the guessed letters and keeps the lives. Its word and next word number are exactly those that loading from the current word number gives. Its word is not already won unless it is empty. |
| Play.StartPlay | src/hangman.c:145-177 | `play` starts with seven lives and no guessed letters. Its word and word number are those that loading from word number 0 gives. |
| Play.Step | src/hangman.c:249-313 | One input keeps the session invariant (lives 0..7, well-formed arrays) and never raises lives. While guessing, the input is applied as a guess, then a won round goes to the choice, or ends with "all guessed" exactly when the word number is 5. A round not won ends "lost" exactly when no lives remain. The session is over with "exit" iff the guess was 0. After a win, "stopped" (with lives set to 0) happens iff the choice is 1, and only there. Any other choice ends "lost" iff no lives remain. With lives left it always starts the next round, as `BeginRound` does. |
| Play.Run | src/hangman.c:197-309 | Any sequence of decoded inputs keeps the invariant and never raises lives, and an ended session stays ended. |
| Play.Feed | src/hangman.c:197-309 | Any sequence of holds, decoded 8 bits per guess and 1 bit per choice, keeps the invariant and never raises lives. |
| Play.LivesDigit | src/hangman.c:239 | `lives + 48` is always a decimal digit character. |
| Play.GuessFitsByte | src/hangman.c:245 | An 8-bit decoded guess fits in a `char` unchanged. |
| Play.ChoiceIsBit | src/hangman.c:296-305 | The 1-bit stop/continue answer is 0 or 1. |
| Play.NonLettersDeplete | src/hangman.c:252-253 | For a word with letters, as many non-letter guesses as there are lives end `play` with every life lost. |
| Play.MissKeepsUnwon | src/hangman.c:252-277 | On an unwon round of a canonical word, a non-letter or a new letter missing from the word is "no letter" or "incorrect", costs exactly one life, and leaves the round unwon. |
| Play.MissesDeplete | src/hangman.c:249-313 | On a canonical word with letters, as many guesses as there are lives end `play` with every life lost. Each guess is a non-letter, or a letter neither guessed nor in the word, with no letter repeated. |
| Menu.Dispatch | src/hangman.c:432-450 | Code 3 shows the instructions, 0 quits, 2 plays, 1 does nothing (the menu is shown again), and exactly the codes above 3 are invalid. Each is stated as an if-and-only-if. |
| Menu.MenuNeverInvalid | src/hangman.c:447-450 | A 2-bit code is never invalid: the "Invalid input" branch is unreachable. |
| Menu.MenuScreenCodes | src/hangman.c:412-414 | The codes shown on the menu, entered in order, are "0-1" (plays: value 2), "1-1" (instructions: value 3) and "0-0" (quits: value 0). |
| WordList.Loads | src/hangman.c:388 | On the built-in list, word numbers 0, 1, 2 and 3 load "PROFESSOR", "TOP", "LEO" and the empty word, with next word numbers 1, 2, 3 and 3. |
| WordList.RoundWords | src/hangman.c:187-194 | These rounds have 9, 3, 3 and 0 letters. |
| WordList.ListIsSafe | src/hangman.c:170-177 | Every load reachable from word number 0 stays inside the 65-byte list. |
| WordList.EmptyWordWonByAnyGuess | src/hangman.c:286-306 | On the built-in list, on the empty word any non-zero guess wins the round and leads to the stop/continue choice. |
| WordList.StepKeepsListInv | src/hangman.c:290-293 | On the built-in list, every step keeps the word number at most 3 and never ends with every word guessed. |
| WordList.NeverAllGuessed | src/hangman.c:290-293 | From any reachable session, no sequence of holds ends `play` with every word guessed. |
| WordList.PlayNeverAllGuessed | src/hangman.c:290-293 | From the start of `play` on the built-in list, no sequence of holds reaches "YOU GUESSED IT ALL". |

## Left out

- Button polling and timing: `HAL_GPIO_ReadPin` and `HAL_GetTick`. The hold duration (`liveTime - pressTime`) is the model's input. The 32-bit tick wrap-around and `pressTime` left at 0 when the button is already down are not modelled.
- All display output.
  - This covers the live red/green/blue feedback while holding, and the masked word, guessed letters and lives drawn at the start of each guess (lines 199-239).
  - It also covers `strout`, `welcome`, `goodbye`, `instructions` and `pauseProgram`.
  - None of them influence the game state.
  - `pauseProgram` returns as soon as the button goes down (src/hangman.c:525). If the button is still held when the next `getBinaryInput` starts, after the redraw at lines 283 and 199-244, that call skips its wait-for-press loop and keeps `pressTime = 0` (lines 87-94). That press then reads as a hold as long as the time since start-up, which is overlong once the board has run 2.5 s. An overlong hold is a retry (`Decoder.OverlongIsRetry`), so the press is dropped without changing the decoded value. If the button is released earlier, that press is never read. Either way it is dropped.
- `main` and the board set-up, `fflush(stdin)`, and `startGame` beyond its word list. `startGame` only calls `menu`.
- Decoder.Decode: `pow(2, count)` returns a `double` and is modelled by the exact integer `Pow2`. The `int` sum is unbounded, so for `length` ≥ 32 (never used: the game asks for 1, 2 or 8 bits) overflow is not modelled.
- Decoder.Decode: a negative `length` is excluded by the `nat` type. The source would return 0 at once, and it never passes one.
- The loop of `menu`. Its first test reads the uninitialised `guess`, which is undefined behaviour, so only the dispatch on the decoded code is modelled.
- Letters.FreeSlot: the `letter` parameter of `addToGuessed` is never read and is not modelled.
- Reads past the end of an array, in `isPresent` (`guessesOrWord[i+1]` at index 26, or beyond the 13-byte word) and in the word copy (`words[i+1]`), are not given values. They are preconditions (`ScanDefined`, `CopyDefined`, `SafeFrom`) proved to hold for the game's arrays and the built-in list.
- Play.NonLettersDeplete: stated only for words with at least one letter. An empty word is won by the first non-zero guess (`WordList.EmptyWordWonByAnyGuess`).
- Play.MissesDeplete: stated for canonical words, meaning upper-case letters followed by zeros, as every word of the built-in list is. On other words `isPresent` stops at the first non-upper-case byte, so "in the word" no longer has a plain meaning.
