/** The rounds-and-lives loop of `play`, as a pure state machine driven by
    decoded inputs: an 8-bit guess while a round is in progress, a 1-bit
    stop/continue choice after a round is won. */
module Play {
  import opened Ascii
  import opened Decoder
  import opened Letters
  import opened Words
  import opened Game

  const StartLives: int := 7
  /** The word number at which the source declares every word guessed. */
  const FinalWordNum: nat := 5
  const GuessBits: nat := 8
  const ChoiceBits: nat := 1

  /** Why `play` returned to the menu. */
  datatype End =
    | Exited      // an all-zero guess
    | Lost        // no lives left
    | Stopped     // the player chose to stop after a won round
    | AllGuessed  // a round was won with `wordNum == 5`

  datatype Phase = Guessing | Choosing | Over(end: End)

  datatype Session = Session(game: GameState, phase: Phase)

  /** `isRoundWon(word, guessedLetters, length)` for the current round. */
  predicate Won(s: GameState)
    requires |s.word| == WordSlots && |s.guessed| == Slots
  {
    IsRoundWon(s.word, s.guessed, RoundLength(s.word))
  }

  /** What holds of a session of `play` between two inputs. */
  predicate Inv(words: seq<byte>, p: Session) {
    var s := p.game;
    && 0 <= s.lives <= StartLives
    && RoundShape(s)
    && (p.phase.Guessing? ==> s.lives >= 1 && (RoundLength(s.word) == 0 || !Won(s)))
    && (p.phase.Choosing? ==> Won(s))
    && (!p.phase.Over? ==> SafeFrom(words, s.wordNum))
  }

  /** The start of a round: clear the guessed letters and load the next word. */
  function BeginRound(words: seq<byte>, s: GameState): (r: GameState)
    requires SafeFrom(words, s.wordNum)
    ensures r.lives == s.lives && r.guessed == Zeros(Slots)
    ensures r.wordNum == s.wordNum || r.wordNum == s.wordNum + 1
    ensures RoundShape(r) && SafeFrom(words, r.wordNum)
    ensures RoundLength(r.word) == 0 || !Won(r)
    ensures LoadDefined(words, s.wordNum) && Loaded(r.word, r.wordNum) == LoadWord(words, s.wordNum)
  {
    var l := LoadWord(words, s.wordNum);
    var r := GameState(s.lives, l.word, Zeros(Slots), l.wordNum);
    assert RoundLength(r.word) > 0 ==> r.word[0] !in r.guessed;
    r
  }

  /** Entering `play`: seven lives, word number 0, and the first round. */
  function StartPlay(words: seq<byte>): (p: Session)
    requires SafeFrom(words, 0)
    ensures Inv(words, p) && p.phase == Guessing
    ensures p.game.lives == StartLives && p.game.guessed == Zeros(Slots)
    ensures LoadDefined(words, 0) && Loaded(p.game.word, p.game.wordNum) == LoadWord(words, 0)
  {
    Session(BeginRound(words, GameState(StartLives, Zeros(WordSlots), Zeros(Slots), 0)), Guessing)
  }

  /** One input of `play`. While guessing, the input is the guess byte; the
      round then ends on exit, on a win (with the `wordNum == 5` test first)
      or on the last life. After a win, the input is the stop/continue
      choice: 1 stops, anything else starts the next round if lives remain. */
  function Step(words: seq<byte>, p: Session, input: byte): (r: Session)
    requires Inv(words, p) && !p.phase.Over?
    ensures Inv(words, r)
    ensures r.game.lives <= p.game.lives
    ensures p.phase.Guessing? ==> r.game.wordNum == p.game.wordNum && p.game.lives - 1 <= r.game.lives
    ensures p.phase.Guessing? ==> (r.phase == Over(Exited) <==> input == 0)
    ensures r.phase == Over(Lost) ==> r.game.lives == 0
    ensures r.phase == Over(AllGuessed) ==> r.game.wordNum == FinalWordNum
    ensures p.phase.Choosing? ==> (r.phase == Over(Stopped) <==> input == 1)
    ensures p.phase.Choosing? && r.phase.Guessing? ==>
              r.game.guessed == Zeros(Slots) && r.game.lives == p.game.lives
    // a guess is applied to the game, and then decides the phase
    ensures p.phase.Guessing? ==> GuessDefined(p.game, input) && r.game == ApplyGuess(p.game, input).state
    ensures p.phase.Guessing? && input != 0 ==>
              (r.phase == Choosing <==> Won(r.game) && r.game.wordNum != FinalWordNum)
    ensures p.phase.Guessing? && input != 0 ==>
              (r.phase == Over(AllGuessed) <==> Won(r.game) && r.game.wordNum == FinalWordNum)
    ensures p.phase.Guessing? && input != 0 && !Won(r.game) ==>
              (r.phase == Over(Lost) <==> r.game.lives == 0)
    // the choice stops (with no lives left), ends a lost game or starts the next round
    ensures r.phase == Over(Stopped) ==> p.phase.Choosing? && r.game == p.game.(lives := 0)
    ensures p.phase.Choosing? && input != 1 ==> (r.phase == Over(Lost) <==> p.game.lives == 0)
    ensures p.phase.Choosing? && r.phase.Guessing? ==> r.game == BeginRound(words, p.game)
    ensures p.phase.Choosing? && input != 1 && p.game.lives > 0 ==> r.phase == Guessing
    ensures r.game.wordNum == p.game.wordNum ||
            (p.phase.Choosing? && r.phase.Guessing? && r.game.wordNum == LoadWord(words, p.game.wordNum).wordNum)
  {
    match p.phase
    case Guessing =>
      GuessStep(p.game, input);
      var g := ApplyGuess(p.game, input);
      if g.outcome == Exit then Session(g.state, Over(Exited))
      else if Won(g.state) then
        if g.state.wordNum == FinalWordNum then Session(g.state, Over(AllGuessed))
        else Session(g.state, Choosing)
      else if g.state.lives == 0 then Session(g.state, Over(Lost))
      else Session(g.state, Guessing)
    case Choosing =>
      if input == 1 then Session(p.game.(lives := 0), Over(Stopped))
      else if p.game.lives == 0 then Session(p.game, Over(Lost))
      else Session(BeginRound(words, p.game), Guessing)
  }

  /** The session after a sequence of decoded inputs (inputs after the end
      are not read). */
  function Run(words: seq<byte>, p: Session, inputs: seq<byte>): (r: Session)
    requires Inv(words, p)
    ensures Inv(words, r)
    ensures r.game.lives <= p.game.lives
    ensures p.phase.Over? ==> r == p
    decreases |inputs|
  {
    if p.phase.Over? || inputs == [] then p
    else Run(words, Step(words, p, inputs[0]), inputs[1..])
  }

  /** The session after a sequence of button holds: each input is decoded
      from the holds, 8 bits for a guess and 1 bit for the choice, and
      stored into a `char`. The session stays put when the holds run out in
      the middle of an input. */
  function Feed(words: seq<byte>, p: Session, holds: seq<nat>): (r: Session)
    requires Inv(words, p)
    ensures Inv(words, r)
    ensures r.game.lives <= p.game.lives
    decreases |holds|
  {
    if p.phase.Over? then p
    else
      var d := Decode(holds, if p.phase.Guessing? then GuessBits else ChoiceBits);
      if d.None? then p
      else Feed(words, Step(words, p, ToByte(d.value.value)), holds[d.value.used..])
  }

  /** The lives count is a single decimal digit, so `lives + 48` is the
      character the display shows. */
  lemma LivesDigit(words: seq<byte>, p: Session)
    requires Inv(words, p)
    ensures '0' as int <= p.game.lives + 48 <= '9' as int
  {
  }

  /** A guess decoded from 8 holds is a whole byte: storing it into a `char`
      loses nothing. */
  lemma GuessFitsByte(holds: seq<nat>)
    ensures Decode(holds, GuessBits).Some? ==>
              ToByte(Decode(holds, GuessBits).value.value) == Decode(holds, GuessBits).value.value
  {
    assert Pow2(GuessBits) == 256;
  }

  /** The stop/continue choice decoded from one hold is 0 or 1. */
  lemma ChoiceIsBit(holds: seq<nat>)
    ensures Decode(holds, ChoiceBits).Some? ==> Decode(holds, ChoiceBits).value.value in {0, 1}
  {
    assert Pow2(ChoiceBits) == 2;
  }

  /** With a round in progress whose word has letters, as many non-letter
      guesses as there are lives end `play` with every life lost, whatever
      the word is. */
  lemma {:induction false} NonLettersDeplete(words: seq<byte>, p: Session, inputs: seq<byte>)
    requires Inv(words, p) && p.phase == Guessing && RoundLength(p.game.word) > 0
    requires |inputs| >= p.game.lives
    requires forall i :: 0 <= i < |inputs| ==> inputs[i] != 0 && !IsLetter(inputs[i])
    ensures Run(words, p, inputs).phase == Over(Lost)
    decreases |inputs|
  {
    var q := Step(words, p, inputs[0]);
    assert q.game.guessed == p.game.guessed && q.game.word == p.game.word;
    assert q.game.lives == p.game.lives - 1;
    if q.game.lives > 0 {
      NonLettersDeplete(words, q, inputs[1..]);
    }
  }

  /** A guess that costs a life in state `s`: a non-zero non-letter, or a
      letter whose upper-case form is neither guessed yet nor among the
      round's letters. */
  predicate Misses(s: GameState, g: byte)
    requires |s.word| == WordSlots
  {
    g != 0 &&
    (!IsLetter(g) ||
     (Normalize(g) !in s.guessed && Normalize(g) !in s.word[..RoundLength(s.word)]))
  }

  /** A missing letter guessed on a round not yet won leaves it not won. */
  lemma MissKeepsUnwon(s: GameState, g: byte)
    requires RoundShape(s) && Canonical(s.word) && RoundLength(s.word) > 0 && !Won(s)
    requires Misses(s, g)
    ensures GuessDefined(s, g)
    ensures ApplyGuess(s, g).outcome in {NotALetter, Incorrect}
    ensures ApplyGuess(s, g).state.lives == s.lives - 1
    ensures !Won(ApplyGuess(s, g).state)
  {
    GuessStep(s, g);
    var t := ApplyGuess(s, g).state;
    var n := RoundLength(s.word);
    var i :| 0 <= i < n && s.word[i] !in s.guessed;
    if IsLetter(g) {
      GuessAgainstWord(s, g);
      assert s.word[i] == s.word[..n][i];
      assert s.word[i] != 0;
    }
    assert s.word[i] !in t.guessed;
  }

  /** With a round in progress on a canonical word with letters, as many
      guesses as there are lives, each a non-letter or a new letter missing
      from the word (no letter repeated), end `play` with every life lost. */
  lemma {:induction false} MissesDeplete(words: seq<byte>, p: Session, inputs: seq<byte>)
    requires Inv(words, p) && p.phase == Guessing
    requires Canonical(p.game.word) && RoundLength(p.game.word) > 0
    requires |inputs| >= p.game.lives
    requires forall i :: 0 <= i < |inputs| ==> Misses(p.game, inputs[i])
    requires forall i, j :: 0 <= i < j < |inputs| && IsLetter(inputs[i]) && IsLetter(inputs[j]) ==>
               Normalize(inputs[i]) != Normalize(inputs[j])
    ensures Run(words, p, inputs).phase == Over(Lost)
    decreases |inputs|
  {
    var g := inputs[0];
    assert Misses(p.game, g);
    MissKeepsUnwon(p.game, g);
    var q := Step(words, p, g);
    assert q.game == ApplyGuess(p.game, g).state;
    if q.game.lives > 0 {
      assert q.phase == Guessing;
      var rest := inputs[1..];
      GuessStep(p.game, g);
      forall i | 0 <= i < |rest|
        ensures Misses(q.game, rest[i])
      {
        assert rest[i] == inputs[i + 1];
        assert Misses(p.game, inputs[i + 1]);
        if IsLetter(rest[i]) && IsLetter(g) {
          assert Normalize(g) != Normalize(inputs[i + 1]);
        }
      }
      forall i, j | 0 <= i < j < |rest| && IsLetter(rest[i]) && IsLetter(rest[j])
        ensures Normalize(rest[i]) != Normalize(rest[j])
      {
        assert rest[i] == inputs[i + 1] && rest[j] == inputs[j + 1];
      }
      MissesDeplete(words, q, rest);
    }
  }
}
