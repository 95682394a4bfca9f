/** One guess of a round of `play`: the game state and the single-guess step. */
module Game {
  import opened Ascii
  import opened Letters
  import opened Words

  /** The variables of `play` that survive from guess to guess: the lives,
      the 13-byte word buffer, the 26-slot guessed-letters array and the
      number of the next word to load. */
  datatype GameState = GameState(lives: int, word: seq<byte>, guessed: seq<byte>, wordNum: nat)

  /** What a guess did; each corresponds to one message of the source. */
  datatype Outcome =
    | Exit            // an all-zero guess leaves the round
    | NotALetter      // "Thats no letter!"
    | AlreadyGuessed  // "You already guessed that!"
    | Correct         // "Correct"
    | Incorrect       // "Incorrect"

  datatype GuessResult = GuessResult(outcome: Outcome, state: GameState)

  /** Upper-casing of a letter: lower-case letters lie 32 above their
      upper-case counterparts. */
  function Normalize(g: byte): (c: byte)
    ensures IsLetter(g) ==> IsUpper(c)
    ensures IsLetter(g) ==> c == g || c == g - 32
  {
    if g > 90 then g - 32 else g
  }

  /** An upper-case letter and its lower-case form are the same guess. */
  lemma NormalizeCaseBlind(c: byte)
    requires IsUpper(c)
    ensures Normalize(c) == c && Normalize(c + 32) == c
  {
  }

  /** The guess step reads inside the arrays it scans. */
  predicate GuessDefined(s: GameState, g: byte) {
    |s.guessed| == Slots &&
    (IsLetter(g) ==>
       var c := Normalize(g);
       ScanDefined(c, s.guessed, 0) && (!IsPresent(c, s.guessed) ==> ScanDefined(c, s.word, 0)))
  }

  /** The body of the guessing loop of `play` after the guess byte is read:
      exit on 0, a life for a non-letter, nothing for a letter already
      guessed, and otherwise the letter goes into the first free slot and
      costs a life when it is not in the word. */
  function ApplyGuess(s: GameState, g: byte): (r: GuessResult)
    requires GuessDefined(s, g)
    ensures r.state.word == s.word && r.state.wordNum == s.wordNum
    ensures |r.state.guessed| == Slots
    ensures r.outcome == Exit <==> g == 0
    ensures r.outcome == NotALetter <==> g != 0 && !IsLetter(g)
    ensures r.outcome in {Exit, AlreadyGuessed} ==> r.state == s
    ensures r.outcome == NotALetter ==> r.state.guessed == s.guessed
    ensures r.state.lives == if r.outcome in {NotALetter, Incorrect} then s.lives - 1 else s.lives
    ensures r.outcome in {Correct, Incorrect} ==>
              forall i :: 0 <= i < Slots ==>
                r.state.guessed[i] == if i == FreeSlot(s.guessed) then Normalize(g) else s.guessed[i]
  {
    if g == 0 then GuessResult(Exit, s)
    else if !IsLetter(g) then GuessResult(NotALetter, s.(lives := s.lives - 1))
    else
      var c := Normalize(g);
      if IsPresent(c, s.guessed) then GuessResult(AlreadyGuessed, s)
      else
        var guessed := s.guessed[FreeSlot(s.guessed) := c];
        if IsPresent(c, s.word) then GuessResult(Correct, s.(guessed := guessed))
        else GuessResult(Incorrect, s.(guessed := guessed, lives := s.lives - 1))
  }

  /** The word buffer and guessed letters of a round in progress. */
  predicate RoundShape(s: GameState) {
    |s.word| == WordSlots && HasSentinel(s.word) && GuessedShape(s.guessed)
  }

  lemma GuessDefinedOnShape(s: GameState, g: byte)
    requires RoundShape(s)
    ensures GuessDefined(s, g)
  {
    if IsLetter(g) {
      IsPresentGuessed(Normalize(g), s.guessed);
      SentinelScan(Normalize(g), s.word);
    }
  }

  /** Adding a letter that is not yet guessed to the first free slot keeps
      the guessed letters a duplicate-free upper-case prefix. */
  lemma AddKeepsShape(guessed: seq<byte>, c: byte)
    requires GuessedShape(guessed) && IsUpper(c) && c !in guessed
    ensures 0 in guessed
    ensures GuessedShape(guessed[FreeSlot(guessed) := c])
    ensures forall x :: x != 0 ==> (x in guessed[FreeSlot(guessed) := c] <==> x in guessed || x == c)
  {
    if 0 !in guessed {
      FullGuessedHasAll(guessed, c);
    }
    var n := FreeSlot(guessed);
    var g' := guessed[n := c];
    forall i, j | 0 <= i < j < Slots && g'[i] == 0
      ensures g'[j] == 0
    {
      assert guessed[i] == 0 && i != n;
    }
    forall i, j | 0 <= i < j < Slots && g'[i] != 0
      ensures g'[i] != g'[j]
    {
      if i == n {
        assert g'[j] == guessed[j];
      } else if j == n {
        assert guessed[i] != 0 && guessed[i] in guessed;
      }
    }
    forall x | x != 0
      ensures x in g' <==> x in guessed || x == c
    {
      if x in guessed {
        var i :| 0 <= i < Slots && guessed[i] == x;
        assert g'[i] == x;
      }
      if x == c {
        assert g'[n] == c;
      }
      if x in g' && x != c {
        var i :| 0 <= i < Slots && g'[i] == x;
        assert guessed[i] == x;
      }
    }
  }

  /** The guess step on a round in progress, in terms of the letters guessed
      so far: a letter already among them, in either case, changes nothing;
      a new letter joins them, and the shape of the array is kept. */
  lemma GuessStep(s: GameState, g: byte)
    requires RoundShape(s)
    ensures GuessDefined(s, g)
    ensures RoundShape(ApplyGuess(s, g).state)
    ensures IsLetter(g) ==>
              (ApplyGuess(s, g).outcome == AlreadyGuessed <==> Normalize(g) in s.guessed)
    ensures ApplyGuess(s, g).outcome in {Correct, Incorrect} ==>
              Normalize(g) !in s.guessed &&
              forall x :: x != 0 ==> (x in ApplyGuess(s, g).state.guessed <==> x in s.guessed || x == Normalize(g))
  {
    GuessDefinedOnShape(s, g);
    var r := ApplyGuess(s, g);
    if IsLetter(g) {
      var c := Normalize(g);
      IsPresentGuessed(c, s.guessed);
      if c !in s.guessed {
        AddKeepsShape(s.guessed, c);
        assert r.state.guessed == s.guessed[FreeSlot(s.guessed) := c];
      }
    }
  }

  /** Guessing the same letter again, in either case, is "already guessed"
      and changes nothing, lives included. */
  lemma GuessRepeat(s: GameState, g: byte, again: byte)
    requires RoundShape(s)
    requires IsLetter(g) && IsLetter(again) && Normalize(again) == Normalize(g)
    ensures GuessDefined(s, g)
    ensures RoundShape(ApplyGuess(s, g).state)
    ensures GuessDefined(ApplyGuess(s, g).state, again)
    ensures ApplyGuess(ApplyGuess(s, g).state, again) == GuessResult(AlreadyGuessed, ApplyGuess(s, g).state)
  {
    GuessStep(s, g);
    var t := ApplyGuess(s, g).state;
    GuessStep(t, again);
    var c := Normalize(g);
    assert c in t.guessed by {
      if c !in s.guessed {
        assert c != 0;
      }
    }
  }

  /** On a canonical word, a new letter is correct exactly when it occurs
      among the letters of the round, and only an incorrect letter costs a
      life. */
  lemma GuessAgainstWord(s: GameState, g: byte)
    requires RoundShape(s) && Canonical(s.word)
    requires IsLetter(g) && Normalize(g) !in s.guessed
    ensures GuessDefined(s, g)
    ensures ApplyGuess(s, g).outcome in {Correct, Incorrect}
    ensures ApplyGuess(s, g).outcome == Correct <==> Normalize(g) in s.word[..RoundLength(s.word)]
    ensures ApplyGuess(s, g).state.lives ==
              if Normalize(g) in s.word[..RoundLength(s.word)] then s.lives else s.lives - 1
  {
    GuessStep(s, g);
    IsPresentWord(Normalize(g), s.word);
  }
}
