/** The word supply of `play`: copying the next word out of the in-memory
    word list and measuring its length. The list is a byte buffer of
    space-terminated words; each round's 13-byte window starts at
    `wordNum * 13`, not at the start of the next word. */
module Words {
  import opened Ascii
  import opened Letters

  const WordSlots: nat := 13

  /** The copy loop from list index `i` to `end` stays inside the list: each
      step reads `words[i]` and `words[i + 1]`, and a space in the latter
      ends the copy. */
  predicate CopyDefined(words: seq<byte>, i: nat, end: nat)
    decreases end - i
  {
    i >= end || (i + 1 < |words| && (words[i + 1] == Space || CopyDefined(words, i + 1, end)))
  }

  /** The copy loop from list index `i`: the bytes copied and whether it
      stopped at a space. */
  function CopyFrom(words: seq<byte>, i: nat, end: nat): (r: (seq<byte>, bool))
    requires i <= end && CopyDefined(words, i, end)
    ensures |r.0| <= end - i
    ensures r.1 ==> |r.0| >= 1
    decreases end - i
  {
    if i >= end then ([], false)
    else if words[i + 1] == Space then ([words[i]], true)
    else
      var rest := CopyFrom(words, i + 1, end);
      ([words[i]] + rest.0, rest.1)
  }

  predicate LoadDefined(words: seq<byte>, wordNum: nat) {
    CopyDefined(words, wordNum * WordSlots, wordNum * WordSlots + WordSlots)
  }

  /** The word buffer of a round and the word number after loading it. */
  datatype Loaded = Loaded(word: seq<byte>, wordNum: nat)

  /** The word-loading block of `play`: clear the 13-byte word buffer, copy
      from `words[wordNum * 13]` up to the byte before the next space (at
      most 13 bytes), and advance `wordNum` only if a space was found. */
  function LoadWord(words: seq<byte>, wordNum: nat): (r: Loaded)
    requires LoadDefined(words, wordNum)
    ensures |r.word| == WordSlots
    ensures r.wordNum == wordNum || r.wordNum == wordNum + 1
  {
    var start := wordNum * WordSlots;
    var copied := CopyFrom(words, start, start + WordSlots);
    Loaded(copied.0 + Zeros(WordSlots - |copied.0|), if copied.1 then wordNum + 1 else wordNum)
  }

  lemma {:induction false} CopyFromStop(words: seq<byte>, i: nat, end: nat, stop: nat)
    requires i <= stop < end
    requires stop + 1 < |words|
    requires forall j :: i < j <= stop ==> words[j] != Space
    requires stop + 1 < end ==> words[stop + 1] == Space
    ensures CopyDefined(words, i, end)
    ensures CopyFrom(words, i, end) == (words[i..stop + 1], words[stop + 1] == Space)
    decreases stop - i
  {
    if i == stop {
      assert words[i..stop + 1] == [words[i]];
      if words[i + 1] != Space {
        assert i + 1 == end;
        var rest := CopyFrom(words, i + 1, end);
        assert rest == ([], false);
        assert CopyFrom(words, i, end) == ([words[i]] + rest.0, rest.1);
        assert [words[i]] + rest.0 == [words[i]];
      }
    } else {
      CopyFromStop(words, i + 1, end, stop);
      assert words[i..stop + 1] == [words[i]] + words[i + 1..stop + 1];
    }
  }

  /** Word loading as a whole: if the copy stops at list index
      `start + m - 1` (the byte after it is a space, or the 13-byte window
      is used up), the word is the `m` bytes from `start` followed by zeros,
      and the word number advances exactly when a space ended the copy. */
  lemma LoadWordSpec(words: seq<byte>, wordNum: nat, m: nat)
    requires 1 <= m <= WordSlots
    requires wordNum * WordSlots + m < |words|
    requires forall j :: wordNum * WordSlots < j < wordNum * WordSlots + m ==> words[j] != Space
    requires m < WordSlots ==> words[wordNum * WordSlots + m] == Space
    ensures LoadDefined(words, wordNum)
    ensures LoadWord(words, wordNum).word ==
              words[wordNum * WordSlots..wordNum * WordSlots + m] + Zeros(WordSlots - m)
    ensures LoadWord(words, wordNum).wordNum ==
              if words[wordNum * WordSlots + m] == Space then wordNum + 1 else wordNum
  {
    var start := wordNum * WordSlots;
    CopyFromStop(words, start, start + WordSlots, start + m - 1);
  }

  // ---------------------------------------------------------------------
  // Word length
  // ---------------------------------------------------------------------

  /** The length-scan loop of `play` from position `i`. */
  function LetterRunFrom(word: seq<byte>, i: nat): (n: nat)
    requires |word| == WordSlots && i <= WordSlots
    ensures i + n <= WordSlots
    ensures forall j :: i <= j < i + n ==> IsLetter(word[j])
    ensures i + n == WordSlots || !IsLetter(word[i + n])
    decreases WordSlots - i
  {
    if i == WordSlots || !IsLetter(word[i]) then 0
    else 1 + LetterRunFrom(word, i + 1)
  }

  /** The round length: how many ASCII letters, upper or lower case, lead
      the 13-byte word buffer. */
  function RoundLength(word: seq<byte>): (n: nat)
    requires |word| == WordSlots
    ensures n <= WordSlots
    ensures forall j :: 0 <= j < n ==> IsLetter(word[j])
    ensures n == WordSlots || !IsLetter(word[n])
  {
    LetterRunFrom(word, 0)
  }

  // ---------------------------------------------------------------------
  // Lists whose every round is well defined
  // ---------------------------------------------------------------------

  /** Every load from word number `k` on, for as long as the word number
      keeps advancing, stays inside the list and yields a word whose
      `isPresent` scan stays inside the 13-byte buffer. */
  predicate SafeFrom(words: seq<byte>, k: nat)
    decreases |words| - k
  {
    LoadDefined(words, k) &&
    var l := LoadWord(words, k);
    HasSentinel(l.word) && (l.wordNum == k || SafeFrom(words, k + 1))
  }

  /** A well-formed word for the guessing step: upper-case letters up to the
      round length, zeros after. */
  predicate Canonical(word: seq<byte>) {
    && |word| == WordSlots
    && RoundLength(word) < WordSlots
    && (forall j :: 0 <= j < RoundLength(word) ==> IsUpper(word[j]))
    && (forall j :: RoundLength(word) <= j < WordSlots ==> word[j] == 0)
  }

  /** On a canonical word `isPresent` stays in bounds and is membership in the
      letters of the round. */
  lemma IsPresentWord(letter: byte, word: seq<byte>)
    requires Canonical(word) && IsUpper(letter)
    ensures HasSentinel(word)
    ensures ScanDefined(letter, word, 0)
    ensures IsPresent(letter, word) <==> letter in word[..RoundLength(word)]
  {
    var n := RoundLength(word);
    var k := if n == 0 then 1 else n;
    assert word[k] == 0;
    IsPresentRun(letter, word, k);
    if n == 0 {
      assert word[..k] == [0];
    }
  }
}
