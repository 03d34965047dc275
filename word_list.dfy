/**
 * Word selection: WordleGame.getWord.
 *
 * The source draws r with nextInt(words.length - 1), which yields
 * 0 <= r < words.length - 1, and returns words[r]. The random draw is a
 * parameter here. Because the bound is one short, the last word of the
 * list, SHIRT, is never chosen.
 */
module WordList {

  /** The fixed word list, in the source's order. */
  const Words: seq<string> :=
    ["SPORT", "BREAD", "WHISK", "GUESS", "LAYUP", "STATE", "TABLE", "GREAT", "SHIRT"]

  /** Every entry is five upper-case letters. */
  predicate IsSecret(w: string) {
    |w| == 5 && forall i :: 0 <= i < |w| ==> 'A' <= w[i] <= 'Z'
  }

  /** getWord, given the value r drawn by nextInt(|Words| - 1). */
  function GetWord(r: int): (w: string)
    requires 0 <= r < |Words| - 1
    ensures w in Words && w != Words[|Words| - 1] && w != "SHIRT"
    ensures IsSecret(w)
  {
    Words[r]
  }

  /** Each word except the last is chosen by exactly one draw. */
  lemma {:induction false} ChosenByExactlyOneDraw(w: string)
    requires w in Words[..|Words| - 1]
    ensures exists r :: 0 <= r < |Words| - 1 && GetWord(r) == w
    ensures forall r, r' | 0 <= r < |Words| - 1 && 0 <= r' < |Words| - 1 ::
      GetWord(r) == w && GetWord(r') == w ==> r == r'
  {
    var r :| 0 <= r < |Words| - 1 && Words[r] == w;
    assert GetWord(r) == w;
  }
}
