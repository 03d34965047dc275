/**
 * The game state of WordleGame: the secret, the attempt counter, the
 * input buffer currentGuess, the letters shown in the 6x5 grid, the
 * cumulative key colours and the enabled flag of the Guess button.
 *
 * The grid is the text of the labels letterKeys[row][column]: each cell
 * is empty or holds the one letter typed into it. The row of the current
 * attempt always shows the buffer, left-aligned; later rows are empty.
 */
module Game {
  import opened Options
  import opened Scoring
  import opened KeyHints
  import opened WordList

  /** Number of grid rows, hence of attempts. */
  const MaxAttempts := 6

  /** The text of one grid label. */
  function CellText(cell: Option<char>): string {
    if cell.Some? then [cell.value] else []
  }

  /** The texts of a row of labels appended left to right. */
  function RowText(cells: seq<Option<char>>): string {
    if cells == [] then [] else RowText(cells[..|cells| - 1]) + CellText(cells[|cells| - 1])
  }

  /** The row that shows buffer buf: its letters, then empty cells. */
  function Padded(buf: string): seq<Option<char>>
    requires |buf| <= WordLength
  {
    seq(WordLength, j requires 0 <= j < WordLength => if j < |buf| then Some(buf[j]) else None)
  }

  /** Reading back a row that shows a buffer gives the buffer: the prefix of k cells spells the first k letters. */
  lemma {:induction false} PaddedRowText(buf: string, k: nat)
    requires |buf| <= WordLength && k <= WordLength
    ensures RowText(Padded(buf)[..k]) == if k <= |buf| then buf[..k] else buf
  {
    if k > 0 {
      PaddedRowText(buf, k - 1);
      assert Padded(buf)[..k][..k - 1] == Padded(buf)[..k - 1];
    }
  }

  /** String.toUpperCase on the ASCII letters; other characters are kept. */
  function UpperCase(c: char): char {
    if 'a' <= c <= 'z' then (c as int - 32) as char else c
  }

  function ToUpperCase(s: string): (u: string)
    ensures |u| == |s|
    ensures forall i :: 0 <= i < |s| && 'a' <= s[i] <= 'z' ==>
      'A' <= u[i] <= 'Z' && u[i] as int - 'A' as int == s[i] as int - 'a' as int
    ensures forall i :: 0 <= i < |s| && !('a' <= s[i] <= 'z') ==> u[i] == s[i]
  {
    seq(|s|, i requires 0 <= i < |s| => UpperCase(s[i]))
  }

  class WordleGame {
    const wordToGuess: string
    /** Text of the 6x5 grid of labels: [attempt, position]. */
    const letterKeys: array2<Option<char>>
    var attempt: int
    var currentGuess: string
    var keyColors: map<char, Hint>
    /** Whether the Guess button is enabled. */
    var guessEnabled: bool

    ghost predicate Valid()
      reads this, letterKeys
    {
      && letterKeys.Length0 == MaxAttempts && letterKeys.Length1 == WordLength
      && IsSecret(wordToGuess)
      && 0 <= attempt <= MaxAttempts
      && |currentGuess| <= WordLength
      && (attempt < MaxAttempts ==>
            forall j :: 0 <= j < WordLength ==> letterKeys[attempt, j] == Padded(currentGuess)[j])
      && (attempt == MaxAttempts ==> currentGuess == [])
      && (forall i, j :: attempt < i < MaxAttempts && 0 <= j < WordLength ==> letterKeys[i, j] == None)
      && (guessEnabled ==> attempt < MaxAttempts)
    }

    /** The constructor, given the draw r that getWord makes. */
    constructor (r: int)
      requires 0 <= r < |Words| - 1
      ensures Valid() && fresh(letterKeys)
      ensures wordToGuess == Words[r]
      ensures attempt == 0 && currentGuess == [] && keyColors == map[] && !guessEnabled
    {
      keyColors := map[];
      currentGuess := [];
      letterKeys := new Option<char>[MaxAttempts, WordLength]((i, j) => None);
      guessEnabled := false;
      wordToGuess := GetWord(r);
      attempt := 0;
    }

    /**
     * isWordGuessed: the buffer is full. Under the invariant this is the
     * same as every cell of the current row holding a letter.
     */
    predicate IsWordGuessed(): (full: bool)
      reads this, letterKeys
      ensures full <==> |currentGuess| == WordLength
      ensures Valid() && attempt < MaxAttempts ==>
        (full <==> forall j :: 0 <= j < WordLength ==> letterKeys[attempt, j].Some?)
    {
      assert Valid() && attempt < MaxAttempts && letterKeys[attempt, WordLength - 1].Some? ==>
        |currentGuess| == WordLength;
      |currentGuess| == WordLength
    }

    /** updateGuessButton: enable the Guess button exactly when the buffer is full. */
    method UpdateGuessButton()
      modifies this`guessEnabled
      ensures guessEnabled == IsWordGuessed()
    {
      guessEnabled := IsWordGuessed();
    }

    /**
     * addLetter: append to a buffer that is not full and write the letter
     * into the first empty cell of the current row. With attempt == 6 the
     * source indexes a seventh grid row that does not exist, hence the
     * precondition.
     */
    method AddLetter(letter: char)
      requires Valid() && attempt < MaxAttempts
      modifies this`currentGuess, this`guessEnabled, letterKeys
      ensures Valid()
      ensures old(|currentGuess|) < WordLength ==>
        && currentGuess == old(currentGuess) + [letter]
        && guessEnabled == IsWordGuessed()
        && letterKeys[attempt, old(|currentGuess|)] == Some(letter)
      ensures old(|currentGuess|) == WordLength ==>
        currentGuess == old(currentGuess) && guessEnabled == old(guessEnabled)
      ensures forall i, j | 0 <= i < MaxAttempts && 0 <= j < WordLength ::
        i != attempt || j != old(|currentGuess|) ==> letterKeys[i, j] == old(letterKeys[i, j])
    {
      if |currentGuess| < WordLength {
        ghost var n := |currentGuess|;
        currentGuess := currentGuess + [letter];
        var i := 0;
        while i < WordLength
          invariant 0 <= i <= n
          invariant forall r, c :: 0 <= r < MaxAttempts && 0 <= c < WordLength ==>
            letterKeys[r, c] == old(letterKeys[r, c])
        {
          if letterKeys[attempt, i] == None {
            letterKeys[attempt, i] := Some(letter);
            break;
          }
          i := i + 1;
        }
        UpdateGuessButton();
      }
    }

    /** removeLetter: drop the last letter of a non-empty buffer and clear the last filled cell of the row. */
    method RemoveLetter()
      requires Valid()
      modifies this`currentGuess, this`guessEnabled, letterKeys
      ensures Valid()
      ensures old(|currentGuess|) > 0 ==>
        && attempt < MaxAttempts
        && currentGuess == old(currentGuess)[..old(|currentGuess|) - 1]
        && guessEnabled == IsWordGuessed()
        && letterKeys[attempt, |currentGuess|] == None
      ensures old(|currentGuess|) == 0 ==>
        currentGuess == old(currentGuess) && guessEnabled == old(guessEnabled)
      ensures forall i, j | 0 <= i < MaxAttempts && 0 <= j < WordLength ::
        i != attempt || j != old(|currentGuess|) - 1 ==> letterKeys[i, j] == old(letterKeys[i, j])
    {
      if |currentGuess| > 0 {
        ghost var n := |currentGuess|;
        currentGuess := currentGuess[..|currentGuess| - 1];
        var i := WordLength - 1;
        while i >= 0
          invariant n - 1 <= i <= WordLength - 1
          invariant forall r, c :: 0 <= r < MaxAttempts && 0 <= c < WordLength ==>
            letterKeys[r, c] == old(letterKeys[r, c])
        {
          if letterKeys[attempt, i] != None {
            letterKeys[attempt, i] := None;
            break;
          }
          i := i - 1;
        }
        UpdateGuessButton();
      }
    }

    /** The first loop of updateKeyboard: fold each guessed letter's mark into keyColors. */
    method UpdateKeyboard(guess: string, feedback: string)
      requires |guess| >= WordLength && |feedback| >= WordLength
      modifies this`keyColors
      ensures keyColors == FoldHints(old(keyColors), guess, feedback, WordLength)
    {
      var i := 0;
      while i < WordLength
        invariant 0 <= i <= WordLength
        invariant keyColors == FoldHints(old(keyColors), guess, feedback, i)
      {
        var letter := guess[i];
        var fb := feedback[i];
        var currentColor := Lookup(keyColors, letter);
        if fb == 'G' {
          keyColors := keyColors[letter := Green];
        } else if fb == 'Y' {
          if currentColor != Some(Green) {
            keyColors := keyColors[letter := Yellow];
          }
        } else if fb == 'B' {
          if letter !in keyColors {
            keyColors := keyColors[letter := Grey];
          }
        }
        i := i + 1;
      }
    }

    /**
     * The effect of one run of the Guess button's handler, comparing the
     * state before and after it: a row that does not hold five letters
     * changes nothing; otherwise the upper-cased guess is scored and folded
     * into the key colours, and then a win disables the button and keeps
     * attempt and the buffer, while any other guess moves to the next row,
     * clears the buffer and disables the button once the rows run out.
     */
    twostate predicate TurnTaken()
      reads this
    {
      if |old(currentGuess)| != WordLength then
        && attempt == old(attempt) && currentGuess == old(currentGuess)
        && keyColors == old(keyColors) && guessEnabled == old(guessEnabled)
      else
        var guess := ToUpperCase(old(currentGuess));
        && |wordToGuess| >= WordLength
        && keyColors == FoldHints(old(keyColors), guess, Feedback(wordToGuess, guess), WordLength)
        && (guess == wordToGuess ==>
              attempt == old(attempt) && currentGuess == old(currentGuess) && !guessEnabled)
        && (guess != wordToGuess ==>
              && attempt == old(attempt) + 1 && currentGuess == []
              && guessEnabled == (old(guessEnabled) && attempt < MaxAttempts))
    }

    /**
     * GuessButton.actionPerformed: read the current row, upper-case it,
     * reject it unless it has five letters, score it, fold the marks into
     * the key colours, then handle a win or advance the attempt. The source
     * reads grid row attempt, so attempt < 6 is required.
     */
    method ActionPerformed()
      requires Valid() && attempt < MaxAttempts
      modifies this`attempt, this`currentGuess, this`keyColors, this`guessEnabled
      ensures Valid() && TurnTaken()
    {
      var text: string := [];
      var i := 0;
      while i < WordLength
        invariant 0 <= i <= WordLength
        invariant text == RowText(Padded(currentGuess)[..i])
      {
        assert Padded(currentGuess)[..i + 1][..i] == Padded(currentGuess)[..i];
        text := text + CellText(letterKeys[attempt, i]);
        i := i + 1;
      }
      PaddedRowText(currentGuess, WordLength);
      assert Padded(currentGuess)[..WordLength] == Padded(currentGuess);
      assert |currentGuess| == WordLength ==> text == currentGuess;
      var userGuess := ToUpperCase(text);
      if |userGuess| != WordLength {
        return;
      }
      var feedback := GetFeedback(wordToGuess, userGuess);
      UpdateKeyboard(userGuess, feedback);
      if userGuess == wordToGuess {
        guessEnabled := false;
        return;
      }
      attempt := attempt + 1;
      if attempt >= MaxAttempts {
        guessEnabled := false;
      }
      currentGuess := [];
    }

    /**
     * A click on the Guess button (also what the GUESS key's doClick does):
     * a disabled button ignores it. In particular, once the six attempts are
     * used up nothing can be submitted.
     */
    method ClickGuessButton()
      requires Valid()
      modifies this`attempt, this`currentGuess, this`keyColors, this`guessEnabled
      ensures Valid()
      ensures old(guessEnabled) ==> TurnTaken()
      ensures !old(guessEnabled) || old(attempt) == MaxAttempts ==>
        && attempt == old(attempt) && currentGuess == old(currentGuess)
        && keyColors == old(keyColors) && guessEnabled == old(guessEnabled)
    {
      if guessEnabled {
        ActionPerformed();
      }
    }
  }

  /**
   * A win does not end the game: deleting a letter and typing one again
   * re-enables the Guess button through updateGuessButton, on the same row.
   */
  method ReenabledAfterWin(game: WordleGame, letter: char)
    requires game.Valid() && game.attempt < MaxAttempts
    requires game.IsWordGuessed() && ToUpperCase(game.currentGuess) == game.wordToGuess
    modifies game, game.letterKeys
    ensures game.Valid()
    ensures game.guessEnabled && game.attempt == old(game.attempt)
  {
    game.ActionPerformed();
    assert !game.guessEnabled && game.IsWordGuessed();
    game.RemoveLetter();
    game.AddLetter(letter);
  }
}
