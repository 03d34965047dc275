/**
 * Guess scoring: WordleGame.getFeedback.
 *
 * Each of the five positions of the guess is marked on its own:
 * 'G' when the letter equals the secret's letter at that position,
 * otherwise 'Y' when the letter occurs anywhere in the secret,
 * otherwise 'B'. There is no accounting for repeated letters: every
 * copy of a letter that occurs in the secret is marked 'Y' (or 'G'),
 * however few copies the secret has.
 */
module Scoring {

  /** Both the secret and an accepted guess have this many letters. */
  const WordLength := 5

  /** The three characters the scorer emits. */
  predicate IsMark(c: char) {
    c == 'G' || c == 'Y' || c == 'B'
  }

  /** The mark for one guessed letter at position i. */
  function MarkAt(secret: string, guess: string, i: nat): char
    requires i < |secret| && i < |guess|
  {
    if guess[i] == secret[i] then 'G'
    else if guess[i] in secret then 'Y'
    else 'B'
  }

  /** The feedback string for a guess: one mark per position. */
  function Feedback(secret: string, guess: string): (fb: string)
    requires |secret| >= WordLength && |guess| >= WordLength
    ensures |fb| == WordLength
    ensures forall i :: 0 <= i < WordLength ==> IsMark(fb[i])
    ensures forall i :: 0 <= i < WordLength ==> (fb[i] == 'G' <==> guess[i] == secret[i])
    ensures forall i :: 0 <= i < WordLength ==>
      (fb[i] == 'Y' <==> guess[i] != secret[i] && guess[i] in secret)
    ensures forall i :: 0 <= i < WordLength ==> (fb[i] == 'B' <==> guess[i] !in secret)
  {
    seq(WordLength, i requires 0 <= i < WordLength => MarkAt(secret, guess, i))
  }

  /**
   * getFeedback: builds the feedback one position at a time, as the
   * source does with a StringBuilder.
   */
  method GetFeedback(secret: string, guess: string) returns (fb: string)
    requires |secret| >= WordLength && |guess| >= WordLength
    ensures fb == Feedback(secret, guess)
  {
    fb := [];
    var i := 0;
    while i < WordLength
      invariant 0 <= i <= WordLength
      invariant fb == Feedback(secret, guess)[..i]
    {
      var guessed := guess[i];
      if guessed == secret[i] {
        fb := fb + ['G'];
      } else if guessed in secret {
        fb := fb + ['Y'];
      } else {
        fb := fb + ['B'];
      }
      i := i + 1;
    }
  }

  /** The feedback is all green exactly when the guess spells the secret. */
  lemma AllGreenIffCorrect(secret: string, guess: string)
    requires |secret| == WordLength && |guess| == WordLength
    ensures Feedback(secret, guess) == "GGGGG" <==> guess == secret
  {
  }

  /**
   * Outside green positions the mark depends only on the letter: two
   * copies of the same letter that are not green get the same mark, so
   * the scorer never spends the secret's occurrences of a letter.
   */
  lemma SameLetterSameMark(secret: string, guess: string, i: nat, j: nat)
    requires |secret| >= WordLength && |guess| >= WordLength
    requires i < WordLength && j < WordLength && guess[i] == guess[j]
    requires guess[i] != secret[i] && guess[j] != secret[j]
    ensures Feedback(secret, guess)[i] == Feedback(secret, guess)[j]
  {
  }

  /**
   * A guess that uses exactly the secret's letters, in any order, gets no
   * 'B' mark.
   */
  lemma AnagramHasNoBlack(secret: string, guess: string)
    requires |secret| == WordLength && |guess| == WordLength
    requires multiset(guess) == multiset(secret)
    ensures forall i :: 0 <= i < WordLength ==> Feedback(secret, guess)[i] != 'B'
  {
    forall i | 0 <= i < WordLength
      ensures guess[i] in secret
    {
      assert guess[i] in multiset(guess);
    }
  }

  /**
   * Secret SPORT, guess SSSSS: one S is green and the other four are
   * yellow, although SPORT holds a single S.
   */
  lemma RepeatedLetterIsNotCounted()
    ensures Feedback("SPORT", "SSSSS") == "GYYYY"
  {
  }
}
