# Wordle game engine in Dafny

A model of the game engine inside `WordleGame.java`, a Swing clone of Wordle.
The player types letters into a 6x5 grid and presses Guess. Each guess is scored
letter by letter, and the marks are folded into the colours of the on-screen
keyboard. The model covers four parts:

- **Scoring** (`scoring.dfy`): `getFeedback`. Each position is marked `'G'` if the
  guessed letter equals the secret's letter there, otherwise `'Y'` if the letter
  occurs anywhere in the secret, otherwise `'B'`. Repeated letters are not
  counted against the secret's copies of them, so secret `SPORT` and guess
  `SSSSS` give `GYYYY`.
- **Keyboard hints** (`key_hints.dfy`): the map loop of `updateKeyboard`, over
  `map<char, Hint>` with `Hint = Green | Yellow | Grey`. A green mark always
  writes Green. A yellow mark writes Yellow unless the entry is Green. A grey
  mark writes Grey only for a letter with no entry. With the order
  Grey < Yellow < Green, each step keeps the stronger of the old entry and the
  new hint. The whole fold therefore equals "the strongest hint ever seen for
  the letter", whatever the order of the positions (`FoldIsStrongestSeen`).
- **Word choice** (`word_list.dfy`): `getWord`, with the value drawn by
  `nextInt(words.length - 1)` passed in as `r`. The draw satisfies
  `0 <= r < 8`, so the ninth word, `SHIRT`, is never the secret.
- **Game state** (`game.dfy`): class `WordleGame` with `wordToGuess`, `attempt`,
  the buffer `currentGuess`, `keyColors`, the Guess button's enabled flag and
  the grid text `letterKeys`, a `6x5` `array2` of optional letters. The invariant
  `Valid()` says the following:
  - `0 <= attempt <= 6` and the buffer holds at most 5 letters;
  - while `attempt < 6`, row `attempt` shows the buffer left-aligned;
  - after the sixth miss the buffer is empty;
  - later rows are empty;
  - an enabled button implies `attempt < 6`.

  `addLetter`, `removeLetter`, `isWordGuessed` (the predicate `IsWordGuessed`),
  `updateGuessButton` and the Guess button's handler are methods. Their
  contracts give the new state in terms of the old one.

Facts about the code that the model keeps:

- A winning guess disables the button. It leaves `attempt` and the buffer as
  they were.
- A win is not terminal. Deleting a letter and typing one re-enables the button
  on the same row (`ReenabledAfterWin`).
- After a miss with attempts left, the buffer is cleared, but `updateGuessButton`
  is not called. The button stays enabled with an empty row. Pressing it then
  takes the "not five letters" branch, which changes nothing. So "enabled iff
  the buffer is full" holds after `addLetter` and `removeLetter`, but it is not
  an invariant of the game.

The code departs from the usual Wordle rules in four ways, and the model keeps
each of them:

- Usual Wordle scores in two passes, so a letter is not marked more often than
  the secret holds it. The code marks each position on its own
  (WordleGame.java:284-294).
- Usual Wordle ends the game on a win or after the last attempt. The code only
  disables the Guess button, and a win can be undone by editing the row.
- Usual Wordle counts the winning guess as an attempt. The code does not
  increment `attempt` on a win (WordleGame.java:262-267).
- Usual Wordle picks the secret uniformly from the whole list. The code never
  picks the last word (WordleGame.java:151).

## Model

| member | source | states |
|---|---|---|
| Scoring.Feedback | WordleGame.java:282-297 | exactly 5 marks, each `G`, `Y` or `B`; `G` iff the letters agree at that position; `Y` iff they differ and the letter occurs somewhere in the secret; `B` iff the letter does not occur in the secret |
| Scoring.GetFeedback | WordleGame.java:282-297 | the loop that builds the feedback one position at a time returns exactly `Feedback(secret, guess)` |
| Scoring.AllGreenIffCorrect | WordleGame.java:284-287 | for five-letter words the feedback is `GGGGG` exactly when the guess equals the secret |
| Scoring.SameLetterSameMark | WordleGame.java:288-292 | two non-green copies of the same letter get the same mark: the scorer does not count the secret's copies of a letter |
| Scoring.AnagramHasNoBlack | WordleGame.java:288-293 | a guess with the same multiset of letters as the secret gets no `B` |
| Scoring.RepeatedLetterIsNotCounted | WordleGame.java:284-294 | secret `SPORT`, guess `SSSSS` gives `GYYYY` |
| KeyHints.Step | WordleGame.java:331-348 | one switch step is a no-op for a non-mark and otherwise sets the letter to the stronger of its old entry and the mark's hint |
| KeyHints.FoldIsStrongestSeen | WordleGame.java:330-349 | after the loop each letter's entry is the strongest of its initial entry and all hints it received, and absent if it had none; the result is independent of position order |
| KeyHints.GreenStaysGreen | WordleGame.java:336-342 | a Green entry is still Green after any further marks |
| KeyHints.FoldNeverWeakens | WordleGame.java:336-346 | no entry is removed and no entry's rank decreases |
| KeyHints.MarkIsReflected | WordleGame.java:336-342 | after the loop each marked letter has an entry at least as strong as its mark; a green mark leaves Green |
| KeyHints.GreyOnlyWhenNew | WordleGame.java:343-346 | an existing Yellow or Green entry never becomes Grey |
| KeyHints.UnguessedUnchanged | WordleGame.java:330-349 | letters not in the guess keep their entry or their lack of one |
| KeyHints.FoldKeys | WordleGame.java:330-349 | the key set after the loop is the old key set plus every letter that received a mark |
| WordList.GetWord | WordleGame.java:148-153 | for a draw `0 <= r < |Words|-1` the word is a list entry of five upper-case letters and never the last entry `SHIRT` |
| WordList.ChosenByExactlyOneDraw | WordleGame.java:150-152 | every word but the last is chosen by exactly one draw |
| Game.PaddedRowText | WordleGame.java:248-252 | reading the texts of a row that shows buffer `buf` gives back `buf`, so the row has 5 letters iff the buffer does |
| Game.ToUpperCase | WordleGame.java:252 | length kept; each ASCII lower-case letter becomes the upper-case letter at the same place in the alphabet (`'a'` to `'A'`, ..., `'z'` to `'Z'`); every other character is kept |
| Game.WordleGame.IsWordGuessed | WordleGame.java:230-232 | true iff the buffer holds 5 letters; under the invariant, iff every cell of the current row holds a letter |
| Game.WordleGame.constructor | WordleGame.java:42-60 | a fresh game: secret `Words[r]`, attempt 0, empty buffer, empty key colours, disabled button, empty grid, invariant established |
| Game.WordleGame.UpdateGuessButton | WordleGame.java:237-239 | the button is enabled iff the buffer holds 5 letters |
| Game.WordleGame.AddLetter | WordleGame.java:196-207 | a letter is appended only to a buffer of fewer than 5 letters, and it goes into the first empty cell of the current row; the button flag becomes "buffer full"; a full buffer changes nothing; the invariant is kept and no other cell changes |
| Game.WordleGame.RemoveLetter | WordleGame.java:212-224 | the last letter is dropped only from a non-empty buffer, and the last filled cell of the row is cleared; the button is disabled; an empty buffer changes nothing; the invariant is kept |
| Game.WordleGame.UpdateKeyboard | WordleGame.java:328-349 | the in-place loop over the five positions leaves `keyColors == FoldHints(old keyColors, guess, feedback, 5)` |
| Game.WordleGame.ActionPerformed | WordleGame.java:247-273 | a row without 5 letters changes nothing; otherwise the marks are folded into the key colours; a win disables the button and keeps attempt and buffer; a miss adds 1 to attempt, clears the buffer and disables the button iff attempt reaches 6; the invariant is kept |
| Game.WordleGame.ClickGuessButton | WordleGame.java:170-173 | a disabled button ignores the click, in particular after the sixth miss; an enabled one runs the handler |
| Game.ReenabledAfterWin | WordleGame.java:212-239 | after a winning submission, one removeLetter and one addLetter re-enable the button on the same row |

## Left out

- Swing construction and rendering are not modelled: `makeGrid` (except the grid's text), `MakeKeyboard`, `makePanel`, the cell colouring of `updateGrid` and the key recolouring loop at the end of `updateKeyboard`. They are presentation only.
- The `JOptionPane` dialogs are not modelled. A dialog shown on a path is a no-op in the model.
- `main`, `SwingUtilities.invokeLater` and the listener classes are not modelled. `LetterKey` and `BackSpace` only call `addLetter` and `removeLetter`. `GuessKey` shows a dialog or calls `doClick`, which `ClickGuessButton` models as "run the handler only if the button is enabled".
- `java.util.Random` is not modelled. The value drawn by `nextInt` is a parameter.
- AWT `Color` values are abstracted to `Hint`. The `LIGHT_GRAY` default of `getOrDefault` is an absent entry.
- Game.ToUpperCase: models `toUpperCase` only for ASCII letters. Locale rules and other scripts are not modelled. The keys only supply `A`-`Z`.
- Game.WordleGame.AddLetter: requires `attempt < 6`. After the sixth miss the source appends to the buffer and then indexes a seventh grid row that does not exist. The model does not capture that out-of-bounds failure.
- Game.WordleGame.ActionPerformed: requires `attempt < 6` for the same reason. It cannot be reached otherwise, because the button is disabled once `attempt` reaches 6.
