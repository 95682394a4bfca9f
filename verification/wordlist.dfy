/** The game with its built-in word list: a 65-byte buffer holding
    "PROFESSOR LAPTOP KNIFE NUCLEO PHYSICS " followed by zeros. Because every
    round's window starts at `wordNum * 13`, the rounds are "PROFESSOR",
    "TOP", "LEO" and then, over and over, an empty word. */
module WordList {
  import opened Ascii
  import opened Decoder
  import opened Words
  import opened Game
  import opened Play

  const ListText: string := "PROFESSOR LAPTOP KNIFE NUCLEO PHYSICS "
  const ListSize: nat := 65

  const List: seq<byte> := Text(ListText) + Zeros(ListSize - |ListText|)

  const Professor: seq<byte> := Text("PROFESSOR") + Zeros(4)
  const Top: seq<byte> := Text("TOP") + Zeros(10)
  const Leo: seq<byte> := Text("LEO") + Zeros(10)

  lemma ListFacts()
    ensures |List| == ListSize
    ensures forall i :: 38 <= i < ListSize ==> List[i] == 0
  {
  }

  lemma LoadProfessor()
    ensures LoadDefined(List, 0) && LoadWord(List, 0) == Loaded(Professor, 1)
  {
    ListFacts();
    LoadWordSpec(List, 0, 9);
    assert List[0..9] == Text("PROFESSOR");
  }

  lemma LoadTop()
    ensures LoadDefined(List, 1) && LoadWord(List, 1) == Loaded(Top, 2)
  {
    ListFacts();
    LoadWordSpec(List, 1, 3);
    assert List[13] == 'T' as int && List[14] == 'O' as int && List[15] == 'P' as int;
    assert List[13..16] == Text("TOP");
  }

  lemma LoadLeo()
    ensures LoadDefined(List, 2) && LoadWord(List, 2) == Loaded(Leo, 3)
  {
    ListFacts();
    LoadWordSpec(List, 2, 3);
    assert List[26] == 'L' as int && List[27] == 'E' as int && List[28] == 'O' as int;
    assert List[26..29] == Text("LEO");
  }

  lemma LoadEmpty()
    ensures LoadDefined(List, 3) && LoadWord(List, 3) == Loaded(Zeros(WordSlots), 3)
  {
    ListFacts();
    LoadWordSpec(List, 3, 13);
    assert List[39..52] == Zeros(13);
  }

  /** The four distinct loads of the list: the word buffer and the next word
      number for word numbers 0 to 3. */
  lemma Loads()
    ensures LoadDefined(List, 0) && LoadWord(List, 0) == Loaded(Professor, 1)
    ensures LoadDefined(List, 1) && LoadWord(List, 1) == Loaded(Top, 2)
    ensures LoadDefined(List, 2) && LoadWord(List, 2) == Loaded(Leo, 3)
    ensures LoadDefined(List, 3) && LoadWord(List, 3) == Loaded(Zeros(WordSlots), 3)
  {
    LoadProfessor();
    LoadTop();
    LoadLeo();
    LoadEmpty();
  }

  /** Loading from word numbers 0..3 never leaves them. */
  lemma LoadStaysBelow4(k: nat)
    requires k <= 3
    ensures LoadDefined(List, k) && LoadWord(List, k).wordNum <= 3
  {
    if k == 0 { LoadProfessor(); }
    else if k == 1 { LoadTop(); }
    else if k == 2 { LoadLeo(); }
    else { LoadEmpty(); }
  }

  /** Each round of the list is a canonical word: 9, 3, 3 and 0 letters. */
  lemma RoundWords()
    ensures Canonical(Professor) && RoundLength(Professor) == 9
    ensures Canonical(Top) && RoundLength(Top) == 3
    ensures Canonical(Leo) && RoundLength(Leo) == 3
    ensures Canonical(Zeros(WordSlots)) && RoundLength(Zeros(WordSlots)) == 0
  {
    assert Professor[9] == 0 && Top[3] == 0 && Leo[3] == 0;
    assert Zeros(WordSlots)[0] == 0;
  }

  /** Every round the list can produce is well defined. */
  lemma ListIsSafe()
    ensures SafeFrom(List, 0)
  {
    Loads();
    RoundWords();
    IsPresentWord(65, Professor);
    IsPresentWord(65, Top);
    IsPresentWord(65, Leo);
    IsPresentWord(65, Zeros(WordSlots));
    assert SafeFrom(List, 3);
    assert SafeFrom(List, 2);
    assert SafeFrom(List, 1);
  }

  /** The empty fourth word is won by whatever guess is entered, so the
      round always goes straight to the stop/continue choice. */
  lemma EmptyWordWonByAnyGuess(p: Session, g: byte)
    requires Inv(List, p) && p.phase == Guessing
    requires p.game.word == Zeros(WordSlots)
    requires g != 0
    ensures Step(List, p, g).phase == Choosing
  {
    RoundWords();
    assert p.game.wordNum != FinalWordNum by {
      Loads();
    }
  }

  /** What the session keeps while playing the list: the word number never
      passes 3. */
  predicate ListInv(p: Session) {
    Inv(List, p) && p.game.wordNum <= 3
  }

  lemma {:induction false} StepKeepsListInv(p: Session, input: byte)
    requires ListInv(p) && !p.phase.Over?
    ensures ListInv(Step(List, p, input))
    ensures Step(List, p, input).phase != Over(AllGuessed)
  {
    LoadStaysBelow4(p.game.wordNum);
  }

  /** However the button is pressed, `play` over the list never reaches the
      "YOU GUESSED IT ALL" branch: the `wordNum == 5` test is never true. */
  lemma {:induction false} NeverAllGuessed(p: Session, holds: seq<nat>)
    requires ListInv(p) && p.phase != Over(AllGuessed)
    ensures Feed(List, p, holds).phase != Over(AllGuessed)
    decreases |holds|
  {
    if !p.phase.Over? {
      var d := Decode(holds, if p.phase.Guessing? then GuessBits else ChoiceBits);
      if d.Some? {
        var q := Step(List, p, ToByte(d.value.value));
        StepKeepsListInv(p, ToByte(d.value.value));
        NeverAllGuessed(q, holds[d.value.used..]);
      }
    }
  }

  /** From the start of `play`, no sequence of holds ever ends it with every
      word guessed. */
  lemma PlayNeverAllGuessed(holds: seq<nat>)
    ensures SafeFrom(List, 0)
    ensures Feed(List, StartPlay(List), holds).phase != Over(AllGuessed)
  {
    ListIsSafe();
    Loads();
    NeverAllGuessed(StartPlay(List), holds);
  }
}
