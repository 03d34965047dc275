/**
 * Cumulative keyboard hints: the first loop of WordleGame.updateKeyboard.
 *
 * keyColors maps a letter to the colour its key shows. For each guessed
 * letter and its mark, a green mark always writes Green, a yellow mark
 * writes Yellow unless the entry is Green, and a grey ('B') mark writes
 * Grey only when the letter has no entry yet. Read with the order
 * Grey < Yellow < Green, each step keeps the stronger of the old entry and
 * the new hint, so the whole fold keeps, per letter, the strongest hint
 * ever observed, whatever the order of the observations.
 */
module KeyHints {
  import opened Options
  import opened Scoring

  /** The key colours: green (106,170,100), yellow (201,180,88), grey (120,124,126). */
  datatype Hint = Green | Yellow | Grey

  /** Strength of a hint: Grey < Yellow < Green. */
  function Rank(h: Hint): nat {
    match h
    case Grey => 0
    case Yellow => 1
    case Green => 2
  }

  /** The hint a mark of the feedback stands for. */
  function HintOf(mark: char): Hint
    requires IsMark(mark)
  {
    if mark == 'G' then Green else if mark == 'Y' then Yellow else Grey
  }

  /** The entry for a letter, if any (getOrDefault with the key's default colour). */
  function Lookup(m: map<char, Hint>, c: char): Option<Hint> {
    if c in m then Some(m[c]) else None
  }

  /** The stronger of an optional old entry and a new hint. */
  function Best(old_: Option<Hint>, h: Hint): (b: Hint)
    ensures b == h || (old_.Some? && b == old_.value)
    ensures Rank(h) <= Rank(b)
    ensures old_.Some? ==> Rank(old_.value) <= Rank(b)
  {
    if old_.Some? && Rank(old_.value) > Rank(h) then old_.value else h
  }

  /**
   * One iteration of the loop: the switch on the mark, as the source
   * writes it. A character that is not a mark falls through the switch.
   */
  function Step(m: map<char, Hint>, letter: char, mark: char): (r: map<char, Hint>)
    ensures !IsMark(mark) ==> r == m
    ensures IsMark(mark) ==> r == m[letter := Best(Lookup(m, letter), HintOf(mark))]
  {
    if mark == 'G' then m[letter := Green]
    else if mark == 'Y' then
      (if Lookup(m, letter) != Some(Green) then m[letter := Yellow] else m)
    else if mark == 'B' then
      (if letter !in m then m[letter := Grey] else m)
    else m
  }

  /** The map after the loop has handled positions 0 .. n-1. */
  function FoldHints(m: map<char, Hint>, guess: string, marks: string, n: nat): map<char, Hint>
    requires n <= |guess| && n <= |marks|
  {
    if n == 0 then m else Step(FoldHints(m, guess, marks, n - 1), guess[n - 1], marks[n - 1])
  }

  /** Every hint observed for letter c: its initial entry and one per marked position. */
  function Seen(m: map<char, Hint>, guess: string, marks: string, n: nat, c: char): set<Hint>
    requires n <= |guess| && n <= |marks|
  {
    (if c in m then {m[c]} else {})
    + set i | 0 <= i < n && guess[i] == c && IsMark(marks[i]) :: HintOf(marks[i])
  }

  /** The strongest hint of a set, or None for the empty set. */
  function Strongest(s: set<Hint>): (o: Option<Hint>)
    ensures o.None? <==> s == {}
    ensures o.Some? ==> o.value in s && forall h :: h in s ==> Rank(h) <= Rank(o.value)
  {
    if Green in s then Some(Green)
    else if Yellow in s then Some(Yellow)
    else if Grey in s then Some(Grey)
    else NoHintLeft(s); None
  }

  lemma NoHintLeft(s: set<Hint>)
    requires Green !in s && Yellow !in s && Grey !in s
    ensures s == {}
  {
    forall h ensures h !in s {
      assert h == Green || h == Yellow || h == Grey;
    }
  }

  lemma StrongestAdd(s: set<Hint>, h: Hint)
    ensures Strongest(s + {h}) == Some(Best(Strongest(s), h))
  {
  }

  lemma {:induction false} SeenStep(m: map<char, Hint>, guess: string, marks: string, n: nat, c: char)
    requires 0 < n <= |guess| && n <= |marks|
    ensures Seen(m, guess, marks, n, c) ==
      if guess[n - 1] == c && IsMark(marks[n - 1])
      then Seen(m, guess, marks, n - 1, c) + {HintOf(marks[n - 1])}
      else Seen(m, guess, marks, n - 1, c)
  {
    var now := set i | 0 <= i < n && guess[i] == c && IsMark(marks[i]) :: HintOf(marks[i]);
    var before := set i | 0 <= i < n - 1 && guess[i] == c && IsMark(marks[i]) :: HintOf(marks[i]);
    if guess[n - 1] == c && IsMark(marks[n - 1]) {
      assert now == before + {HintOf(marks[n - 1])};
    } else {
      assert now == before;
    }
  }

  /**
   * The fold keeps, for every letter, the strongest hint among its initial
   * entry and all the marks it received; a letter that was never entered
   * and never marked has no entry. The result does not depend on the
   * order in which the positions are visited.
   */
  lemma {:induction false} FoldIsStrongestSeen(m: map<char, Hint>, guess: string, marks: string, n: nat, c: char)
    requires n <= |guess| && n <= |marks|
    ensures Lookup(FoldHints(m, guess, marks, n), c) == Strongest(Seen(m, guess, marks, n, c))
  {
    if n == 0 {
      assert Seen(m, guess, marks, 0, c) == (if c in m then {m[c]} else {});
    } else {
      FoldIsStrongestSeen(m, guess, marks, n - 1, c);
      SeenStep(m, guess, marks, n, c);
      if guess[n - 1] == c && IsMark(marks[n - 1]) {
        StrongestAdd(Seen(m, guess, marks, n - 1, c), HintOf(marks[n - 1]));
      }
    }
  }

  /** Green is final: a letter that is Green stays Green. */
  lemma {:induction false} GreenStaysGreen(m: map<char, Hint>, guess: string, marks: string, n: nat, c: char)
    requires n <= |guess| && n <= |marks|
    requires c in m && m[c] == Green
    ensures c in FoldHints(m, guess, marks, n) && FoldHints(m, guess, marks, n)[c] == Green
  {
    FoldIsStrongestSeen(m, guess, marks, n, c);
  }

  /**
   * No entry is removed or weakened: Yellow never falls back to Grey and
   * Green never to anything else.
   */
  lemma {:induction false} FoldNeverWeakens(m: map<char, Hint>, guess: string, marks: string, n: nat, c: char)
    requires n <= |guess| && n <= |marks|
    requires c in m
    ensures c in FoldHints(m, guess, marks, n)
    ensures Rank(m[c]) <= Rank(FoldHints(m, guess, marks, n)[c])
  {
    FoldIsStrongestSeen(m, guess, marks, n, c);
  }

  /** A green mark always leaves its letter Green; a yellow one leaves it at least Yellow. */
  lemma {:induction false} MarkIsReflected(m: map<char, Hint>, guess: string, marks: string, n: nat, i: nat)
    requires n <= |guess| && n <= |marks| && i < n
    requires IsMark(marks[i])
    ensures guess[i] in FoldHints(m, guess, marks, n)
    ensures Rank(HintOf(marks[i])) <= Rank(FoldHints(m, guess, marks, n)[guess[i]])
  {
    FoldIsStrongestSeen(m, guess, marks, n, guess[i]);
    assert HintOf(marks[i]) in Seen(m, guess, marks, n, guess[i]);
  }

  /** Grey is written only for a letter with no entry: an existing entry never becomes Grey. */
  lemma {:induction false} GreyOnlyWhenNew(m: map<char, Hint>, guess: string, marks: string, n: nat, c: char)
    requires n <= |guess| && n <= |marks|
    requires c in m && m[c] != Grey
    ensures c in FoldHints(m, guess, marks, n)
    ensures FoldHints(m, guess, marks, n)[c] != Grey
  {
    FoldNeverWeakens(m, guess, marks, n, c);
  }

  /** Letters not among the first n guessed letters keep their entry, or their absence of one. */
  lemma {:induction false} UnguessedUnchanged(m: map<char, Hint>, guess: string, marks: string, n: nat, c: char)
    requires n <= |guess| && n <= |marks|
    requires forall i :: 0 <= i < n ==> guess[i] != c
    ensures Lookup(FoldHints(m, guess, marks, n), c) == Lookup(m, c)
  {
    FoldIsStrongestSeen(m, guess, marks, n, c);
    assert Seen(m, guess, marks, n, c) == (if c in m then {m[c]} else {});
  }

  /** The key set only grows, and by exactly the letters that received a mark. */
  lemma {:induction false} FoldKeys(m: map<char, Hint>, guess: string, marks: string, n: nat)
    requires n <= |guess| && n <= |marks|
    ensures FoldHints(m, guess, marks, n).Keys ==
      m.Keys + set i | 0 <= i < n && IsMark(marks[i]) :: guess[i]
  {
    if n > 0 {
      FoldKeys(m, guess, marks, n - 1);
      var before := set i | 0 <= i < n - 1 && IsMark(marks[i]) :: guess[i];
      var now := set i | 0 <= i < n && IsMark(marks[i]) :: guess[i];
      if IsMark(marks[n - 1]) {
        assert now == before + {guess[n - 1]};
      } else {
        assert now == before;
      }
    }
  }
}
