/** The letter-array helpers of the game: `isPresent`, `addToGuessed` and
    `isRoundWon`. Arrays are byte sequences; the guessed-letters array has
    `Slots` entries, one per letter of the alphabet. */
module Letters {
  import opened Ascii

  const Slots: nat := 26

  // ---------------------------------------------------------------------
  // isPresent
  // ---------------------------------------------------------------------

  /** The scan of `isPresent` from index `i` stays inside `arr`. At each step
      it reads `arr[i]` and, unless that is the letter, `arr[i + 1]`; it stops
      at the letter, before an entry that is not an upper-case letter, or
      after `Slots` steps. */
  predicate ScanDefined(letter: byte, arr: seq<byte>, i: nat)
    decreases Slots - i
  {
    i >= Slots ||
    (i < |arr| &&
     (letter == arr[i] ||
      (i + 1 < |arr| && (!IsUpper(arr[i + 1]) || ScanDefined(letter, arr, i + 1)))))
  }

  function IsPresentFrom(letter: byte, arr: seq<byte>, i: nat): (r: bool)
    requires ScanDefined(letter, arr, i)
    ensures r ==> i < Slots && letter in arr[i..]
    decreases Slots - i
  {
    if i >= Slots then false
    else if letter == arr[i] then true
    else if !IsUpper(arr[i + 1]) then false
    else IsPresentFrom(letter, arr, i + 1)
  }

  /** `isPresent(letter, arr)`: true only when the letter is found. */
  function IsPresent(letter: byte, arr: seq<byte>): (r: bool)
    requires ScanDefined(letter, arr, 0)
    ensures r ==> letter in arr
  {
    IsPresentFrom(letter, arr, 0)
  }

  /** Some entry at index 1..Slots, inside the array, is not an upper-case
      letter: the scan of `isPresent` cannot run off the end. */
  predicate HasSentinel(arr: seq<byte>) {
    exists k :: 1 <= k < |arr| && k <= Slots && !IsUpper(arr[k])
  }

  lemma {:induction false} SentinelScanFrom(letter: byte, arr: seq<byte>, k: nat, i: nat)
    requires 1 <= k < |arr| && k <= Slots && !IsUpper(arr[k])
    requires i < k
    ensures ScanDefined(letter, arr, i)
    decreases k - i
  {
    if letter != arr[i] && IsUpper(arr[i + 1]) {
      SentinelScanFrom(letter, arr, k, i + 1);
    }
  }

  lemma SentinelScan(letter: byte, arr: seq<byte>)
    requires HasSentinel(arr)
    ensures ScanDefined(letter, arr, 0)
  {
    var k :| 1 <= k < |arr| && k <= Slots && !IsUpper(arr[k]);
    SentinelScanFrom(letter, arr, k, 0);
  }

  lemma {:induction false} IsPresentRunFrom(letter: byte, arr: seq<byte>, k: nat, i: nat)
    requires 1 <= k < |arr| && k <= Slots && !IsUpper(arr[k])
    requires forall j :: 1 <= j < k ==> IsUpper(arr[j])
    requires i < k
    ensures ScanDefined(letter, arr, i)
    ensures IsPresentFrom(letter, arr, i) <==> letter in arr[i..k]
    decreases k - i
  {
    SentinelScanFrom(letter, arr, k, i);
    if letter != arr[i] && i + 1 < k {
      IsPresentRunFrom(letter, arr, k, i + 1);
      assert arr[i..k] == [arr[i]] + arr[i + 1..k];
    }
  }

  /** When `k` is the first index from 1 on that holds no upper-case letter,
      `isPresent` reports exactly whether the letter is among `arr[0..k)`. */
  lemma IsPresentRun(letter: byte, arr: seq<byte>, k: nat)
    requires 1 <= k < |arr| && k <= Slots && !IsUpper(arr[k])
    requires forall j :: 1 <= j < k ==> IsUpper(arr[j])
    ensures ScanDefined(letter, arr, 0)
    ensures IsPresent(letter, arr) <==> letter in arr[..k]
  {
    IsPresentRunFrom(letter, arr, k, 0);
    assert arr[0..k] == arr[..k];
  }

  /** A letter stored at index `m` inside a run of upper-case letters is found,
      with no read past index `m`. */
  lemma {:induction false} IsPresentFoundFrom(letter: byte, arr: seq<byte>, m: nat, i: nat)
    requires m < |arr| && m < Slots && arr[m] == letter
    requires forall j :: 1 <= j <= m ==> IsUpper(arr[j])
    requires i <= m
    ensures ScanDefined(letter, arr, i)
    ensures IsPresentFrom(letter, arr, i)
    decreases m - i
  {
    if letter != arr[i] {
      IsPresentFoundFrom(letter, arr, m, i + 1);
    }
  }

  // ---------------------------------------------------------------------
  // addToGuessed
  // ---------------------------------------------------------------------

  /** The loop of `addToGuessed` from slot `i`. */
  function FreeSlotFrom(guessed: seq<byte>, i: nat): (r: nat)
    requires |guessed| == Slots && i <= Slots
    ensures r < Slots
    ensures (exists j :: i <= j < Slots && guessed[j] == 0) ==>
              i <= r && guessed[r] == 0 && forall j :: i <= j < r ==> guessed[j] != 0
    ensures (forall j :: i <= j < Slots ==> guessed[j] != 0) ==> r == 0
    decreases Slots - i
  {
    if i == Slots then 0
    else if guessed[i] == 0 then i
    else FreeSlotFrom(guessed, i + 1)
  }

  /** `addToGuessed(letter, guessed)`: the first empty slot, or 0 when every
      slot is taken. (Its letter argument is never read.) */
  function FreeSlot(guessed: seq<byte>): (r: nat)
    requires |guessed| == Slots
    ensures r < Slots
    ensures 0 in guessed ==> guessed[r] == 0 && forall j :: 0 <= j < r ==> guessed[j] != 0
    ensures 0 !in guessed ==> r == 0
  {
    FreeSlotFrom(guessed, 0)
  }

  // ---------------------------------------------------------------------
  // isRoundWon
  // ---------------------------------------------------------------------

  /** The inner loop of `isRoundWon`: is `c` in one of the slots from `j` on? */
  function InSlotsFrom(c: byte, guessed: seq<byte>, j: nat): (r: bool)
    requires |guessed| == Slots && j <= Slots
    ensures r <==> c in guessed[j..]
    decreases Slots - j
  {
    if j == Slots then false
    else if c == guessed[j] then true
    else
      assert guessed[j..] == [guessed[j]] + guessed[j + 1..];
      InSlotsFrom(c, guessed, j + 1)
  }

  /** The outer loop of `isRoundWon`: how many of the first `n` positions of
      the word hold a guessed letter. */
  function CoveredCount(word: seq<byte>, guessed: seq<byte>, n: nat): (r: nat)
    requires |guessed| == Slots && n <= |word|
    ensures r <= n
    ensures r == n <==> forall i :: 0 <= i < n ==> word[i] in guessed
  {
    if n == 0 then 0
    else
      var hit := InSlotsFrom(word[n - 1], guessed, 0);
      assert guessed[0..] == guessed;
      CoveredCount(word, guessed, n - 1) + (if hit then 1 else 0)
  }

  /** `isRoundWon(word, guessed, length)`: the count of covered positions
      equals the length. */
  function IsRoundWon(word: seq<byte>, guessed: seq<byte>, length: nat): (r: bool)
    requires |guessed| == Slots && length <= |word|
    ensures r <==> forall i :: 0 <= i < length ==> word[i] in guessed
  {
    CoveredCount(word, guessed, length) == length
  }

  /** Guessing more letters never un-wins a round. */
  lemma RoundWonMonotone(word: seq<byte>, guessed: seq<byte>, more: seq<byte>, length: nat)
    requires |guessed| == Slots && |more| == Slots && length <= |word|
    requires forall c :: c in guessed ==> c in more
    requires IsRoundWon(word, guessed, length)
    ensures IsRoundWon(word, more, length)
  {
  }

  // ---------------------------------------------------------------------
  // The shape of the guessed-letters array
  // ---------------------------------------------------------------------

  /** A prefix of distinct upper-case letters followed by zeros. */
  predicate GuessedShape(guessed: seq<byte>) {
    && |guessed| == Slots
    && (forall i :: 0 <= i < Slots ==> guessed[i] == 0 || IsUpper(guessed[i]))
    && (forall i, j :: 0 <= i < j < Slots && guessed[i] == 0 ==> guessed[j] == 0)
    && (forall i, j :: 0 <= i < j < Slots && guessed[i] != 0 ==> guessed[i] != guessed[j])
  }

  function ValuesUpTo(s: seq<byte>, n: nat): set<int>
    requires n <= |s|
  {
    set i | 0 <= i < n :: s[i] as int
  }

  lemma {:induction false} DistinctValuesCard(s: seq<byte>, n: nat)
    requires n <= |s|
    requires forall i, j :: 0 <= i < j < n ==> s[i] != s[j]
    ensures |ValuesUpTo(s, n)| == n
    decreases n
  {
    if n > 0 {
      DistinctValuesCard(s, n - 1);
      assert ValuesUpTo(s, n) == ValuesUpTo(s, n - 1) + {s[n - 1] as int};
      assert s[n - 1] as int !in ValuesUpTo(s, n - 1);
    }
  }

  /** The integers in [lo, hi). */
  function Range(lo: int, hi: int): (r: set<int>)
    ensures forall x :: x in r <==> lo <= x < hi
    decreases hi - lo
  {
    if lo >= hi then {} else Range(lo, hi - 1) + {hi - 1}
  }

  lemma {:induction false} RangeCard(lo: int, hi: int)
    requires lo <= hi
    ensures |Range(lo, hi)| == hi - lo
    decreases hi - lo
  {
    if lo < hi {
      RangeCard(lo, hi - 1);
    }
  }

  lemma SubsetCard(a: set<int>, b: set<int>)
    requires a <= b
    ensures |a| <= |b|
  {
    assert b == a + (b - a);
    assert a * (b - a) == {};
  }

  lemma ValuesAvoid(guessed: seq<byte>, letter: byte)
    requires |guessed| == Slots
    requires forall i :: 0 <= i < Slots ==> IsUpper(guessed[i])
    requires letter !in guessed
    ensures ValuesUpTo(guessed, Slots) <= Range(65, 91) - {letter as int}
  {
    forall x | x in ValuesUpTo(guessed, Slots)
      ensures x in Range(65, 91) - {letter as int}
    {
      var i :| 0 <= i < Slots && guessed[i] as int == x;
      assert IsUpper(guessed[i]);
    }
  }

  /** With all 26 slots filled by distinct upper-case letters, every
      upper-case letter is among them. */
  lemma FullGuessedHasAll(guessed: seq<byte>, letter: byte)
    requires GuessedShape(guessed) && 0 !in guessed
    requires IsUpper(letter)
    ensures letter in guessed
  {
    assert forall i :: 0 <= i < Slots ==> guessed[i] != 0;
    DistinctValuesCard(guessed, Slots);
    if letter !in guessed {
      RangeCard(65, 91);
      assert |Range(65, 91) - {letter as int}| == 25;
      ValuesAvoid(guessed, letter);
      SubsetCard(ValuesUpTo(guessed, Slots), Range(65, 91) - {letter as int});
      assert false;
    }
  }

  /** `isPresent` on a well-shaped guessed-letters array stays in bounds and
      is plain membership, for any upper-case letter. */
  lemma IsPresentGuessed(letter: byte, guessed: seq<byte>)
    requires GuessedShape(guessed) && IsUpper(letter)
    ensures ScanDefined(letter, guessed, 0)
    ensures IsPresent(letter, guessed) <==> letter in guessed
  {
    if 0 in guessed {
      var n := FreeSlot(guessed);
      var k := if n == 0 then 1 else n;
      assert guessed[k] == 0;
      IsPresentRun(letter, guessed, k);
      assert letter in guessed <==> letter in guessed[..k] by {
        if letter in guessed {
          var i :| 0 <= i < Slots && guessed[i] == letter;
          assert i < k;
          assert guessed[..k][i] == letter;
        }
      }
    } else {
      FullGuessedHasAll(guessed, letter);
      var m :| 0 <= m < Slots && guessed[m] == letter;
      IsPresentFoundFrom(letter, guessed, m, 0);
    }
  }
}
