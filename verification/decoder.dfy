/** The single-button bit decoder (`getBinaryInput`).

    Each press of the button is abstracted to the number of milliseconds it was
    held. A hold shorter than `ShortLimit` is a 0 bit, a hold in
    [`ShortLimit`, `RedoLimit`) is a 1 bit, and a longer hold matches neither
    branch of the classification: neither the bit position nor the sum moves,
    so the same bit is asked for again. The first accepted press is the least
    significant bit. */
module Decoder {

  /** A decode either completes or is still waiting for presses. */
  datatype Option<+T> = None | Some(value: T)

  const ShortLimit: nat := 500
  const RedoLimit: nat := 2500

  /** Integer replacement for the `pow(2, count)` of the source. */
  function Pow2(n: nat): (r: nat)
    ensures r >= 1
  {
    if n == 0 then 1 else 2 * Pow2(n - 1)
  }

  /** The value of an accepted (not overlong) hold. */
  function Bit(hold: nat): (b: nat)
    ensures b <= 1
    ensures b == 1 <==> hold >= ShortLimit
  {
    if hold < ShortLimit then 0 else 1
  }

  // ---------------------------------------------------------------------
  // Reference definition: the accepted holds and their binary weight.
  // ---------------------------------------------------------------------

  /** The holds among the first `n` that count as a bit, in order; overlong
      holds are dropped. */
  function KeptUpTo(holds: seq<nat>, n: nat): seq<nat>
    requires n <= |holds|
  {
    if n == 0 then []
    else KeptUpTo(holds, n - 1) + (if holds[n - 1] < RedoLimit then [holds[n - 1]] else [])
  }

  function Kept(holds: seq<nat>): seq<nat> {
    KeptUpTo(holds, |holds|)
  }

  /** The sum of Bit(bits[i]) * 2^i over all positions i. */
  function Weight(bits: seq<nat>): nat
  {
    if bits == [] then 0
    else Weight(bits[..|bits| - 1]) + Bit(bits[|bits| - 1]) * Pow2(|bits| - 1)
  }

  // ---------------------------------------------------------------------
  // The decoder itself
  // ---------------------------------------------------------------------

  /** Outcome of a decode: the accumulated value and how many holds it used. */
  datatype Decoded = Decoded(value: nat, used: nat)

  /** What the decoding loop promises when started at hold `i` with `count`
      bits accepted: it produces a value exactly when there are `length`
      accepted holds, and then the value is the weight of the first `length`
      of them, which end at the last hold it used. */
  ghost predicate LoopPost(holds: seq<nat>, length: nat, i: nat, count: nat, r: Option<Decoded>)
    requires i <= |holds|
  {
    && (r.Some? <==> length <= |Kept(holds)|)
    && (r.Some? ==>
          && i <= r.value.used <= |holds|
          && KeptUpTo(holds, r.value.used) == Kept(holds)[..length]
          && r.value.value == Weight(Kept(holds)[..length])
          && (count < length ==> i < r.value.used)
          && (i < r.value.used ==> holds[r.value.used - 1] < RedoLimit))
  }

  /** The loop's promise carries back over one hold: an accepted one
      (`next == count + 1`) or an overlong one (`next == count`). */
  lemma LoopPostBack(holds: seq<nat>, length: nat, i: nat, count: nat, next: nat, r: Option<Decoded>)
    requires i < |holds| && count < length
    requires next == count || (next == count + 1 && holds[i] < RedoLimit)
    requires LoopPost(holds, length, i + 1, next, r)
    ensures LoopPost(holds, length, i, count, r)
  {
  }

  /** The `while (count < length)` loop of `getBinaryInput`, with `i` the
      index of the next hold. `None` means that the holds ran out before
      `length` bits were accepted: the device would still be waiting. */
  function DecodeLoop(holds: seq<nat>, length: nat, i: nat, count: nat, sum: nat): (r: Option<Decoded>)
    requires i <= |holds|
    requires count <= length
    requires count == |KeptUpTo(holds, i)| && sum == Weight(KeptUpTo(holds, i))
    ensures LoopPost(holds, length, i, count, r)
    decreases |holds| - i
  {
    if count >= length then
      KeptDone(holds, i, length);
      Some(Decoded(sum, i))
    else if i == |holds| then
      None
    else
      var h := holds[i];
      if ShortLimit <= h < RedoLimit then
        // a 1 bit: add 2^count and move to the next position
        AcceptStep(holds, i);
        var r := DecodeLoop(holds, length, i + 1, count + 1, sum + Pow2(count));
        LoopPostBack(holds, length, i, count, count + 1, r);
        r
      else if h < ShortLimit then
        // a 0 bit: only move to the next position
        AcceptStep(holds, i);
        var r := DecodeLoop(holds, length, i + 1, count + 1, sum);
        LoopPostBack(holds, length, i, count, count + 1, r);
        r
      else
        // overlong: no branch matches, the same position is asked for again
        assert KeptUpTo(holds, i + 1) == KeptUpTo(holds, i) + [] == KeptUpTo(holds, i);
        var r := DecodeLoop(holds, length, i + 1, count, sum);
        LoopPostBack(holds, length, i, count, count, r);
        r
  }

  /** `getBinaryInput(length)`: decodes the first `length` accepted holds. */
  function Decode(holds: seq<nat>, length: nat): (r: Option<Decoded>)
    ensures r.Some? <==> length <= |Kept(holds)|
    ensures r.Some? ==>
              && r.value.used <= |holds|
              && KeptUpTo(holds, r.value.used) == Kept(holds)[..length]
              && r.value.value == Weight(Kept(holds)[..length])
              && r.value.value < Pow2(length)
    ensures r.Some? && length > 0 ==> 0 < r.value.used && holds[r.value.used - 1] < RedoLimit
  {
    var r := DecodeLoop(holds, length, 0, 0, 0);
    if r.Some? then
      WeightBound(Kept(holds)[..length]);
      r
    else r
  }

  // ---------------------------------------------------------------------
  // Lemmas about Kept and Weight
  // ---------------------------------------------------------------------

  lemma WeightStep(bits: seq<nat>, h: nat)
    ensures Weight(bits + [h]) == Weight(bits) + Bit(h) * Pow2(|bits|)
  {
    assert (bits + [h])[..|bits|] == bits;
  }

  /** One accepted hold extends the accepted bits by one and adds its weight. */
  lemma AcceptStep(holds: seq<nat>, i: nat)
    requires i < |holds| && holds[i] < RedoLimit
    ensures |KeptUpTo(holds, i + 1)| == |KeptUpTo(holds, i)| + 1
    ensures Weight(KeptUpTo(holds, i + 1)) ==
              Weight(KeptUpTo(holds, i)) + (if holds[i] >= ShortLimit then Pow2(|KeptUpTo(holds, i)|) else 0)
  {
    WeightStep(KeptUpTo(holds, i), holds[i]);
  }

  /** The accepted holds among the first i are a prefix of those among the
      first j. */
  lemma {:induction false} KeptPrefix(holds: seq<nat>, i: nat, j: nat)
    requires i <= j <= |holds|
    ensures |KeptUpTo(holds, i)| <= |KeptUpTo(holds, j)|
    ensures KeptUpTo(holds, i) == KeptUpTo(holds, j)[..|KeptUpTo(holds, i)|]
    decreases j - i
  {
    if i < j {
      KeptPrefix(holds, i, j - 1);
    }
  }

  /** Once `length` bits are accepted, they are the first `length` accepted holds. */
  lemma KeptDone(holds: seq<nat>, i: nat, length: nat)
    requires i <= |holds| && |KeptUpTo(holds, i)| == length
    ensures length <= |Kept(holds)|
    ensures KeptUpTo(holds, i) == Kept(holds)[..length]
  {
    KeptPrefix(holds, i, |holds|);
  }

  /** The value of n bits is below 2^n. */
  lemma {:induction false} WeightBound(bits: seq<nat>)
    ensures Weight(bits) < Pow2(|bits|)
    decreases |bits|
  {
    if bits != [] {
      WeightBound(bits[..|bits| - 1]);
    }
  }

  /** Splitting off the least significant bit. */
  lemma {:induction false} WeightCons(h: nat, bits: seq<nat>)
    ensures Weight([h] + bits) == Bit(h) + 2 * Weight(bits)
    decreases |bits|
  {
    if bits != [] {
      var init := bits[..|bits| - 1];
      assert ([h] + bits)[..|bits|] == [h] + init;
      WeightCons(h, init);
      assert Pow2(|bits|) == 2 * Pow2(|bits| - 1);
    }
  }

  /** The accepted holds among the first n depend only on those n holds. */
  lemma {:induction false} KeptUpToPrefix(a: seq<nat>, b: seq<nat>, n: nat)
    requires n <= |a| && n <= |b| && a[..n] == b[..n]
    ensures KeptUpTo(a, n) == KeptUpTo(b, n)
  {
    if n > 0 {
      assert a[n - 1] == a[..n][n - 1] == b[..n][n - 1] == b[n - 1];
      assert a[..n - 1] == a[..n][..n - 1] == b[..n][..n - 1] == b[..n - 1];
      KeptUpToPrefix(a, b, n - 1);
    }
  }

  /** Kept distributes over concatenation, prefix by prefix. */
  lemma {:induction false} KeptAppendUpTo(a: seq<nat>, b: seq<nat>, n: nat)
    requires n <= |b|
    ensures KeptUpTo(a + b, |a| + n) == Kept(a) + KeptUpTo(b, n)
    decreases n
  {
    if n == 0 {
      assert (a + b)[..|a|] == a[..|a|];
      KeptUpToPrefix(a + b, a, |a|);
    } else {
      KeptAppendUpTo(a, b, n - 1);
      assert (a + b)[|a| + n - 1] == b[n - 1];
    }
  }

  lemma KeptAppend(a: seq<nat>, b: seq<nat>)
    ensures Kept(a + b) == Kept(a) + Kept(b)
  {
    KeptAppendUpTo(a, b, |b|);
  }

  lemma {:induction false} KeptAllAccepted(holds: seq<nat>, n: nat)
    requires n <= |holds|
    requires forall i :: 0 <= i < |holds| ==> holds[i] < RedoLimit
    ensures KeptUpTo(holds, n) == holds[..n]
    decreases n
  {
    if n > 0 {
      KeptAllAccepted(holds, n - 1);
      assert holds[..n] == holds[..n - 1] + [holds[n - 1]];
    }
  }

  // ---------------------------------------------------------------------
  // Properties of the decoder
  // ---------------------------------------------------------------------

  /** An overlong hold anywhere in the input is a retry: inserting one changes
      neither whether a value is produced nor the value itself. */
  lemma OverlongIsRetry(before: seq<nat>, after: seq<nat>, hold: nat, length: nat)
    requires hold >= RedoLimit
    ensures Decode(before + [hold] + after, length).Some? == Decode(before + after, length).Some?
    ensures Decode(before + after, length).Some? ==>
              Decode(before + [hold] + after, length).value.value == Decode(before + after, length).value.value
  {
    KeptAppend(before + [hold], after);
    KeptAppend(before, [hold]);
    KeptAppend(before, after);
    assert Kept([hold]) == KeptUpTo([hold], 0) + [];
    assert Kept(before + [hold] + after) == Kept(before + after);
  }

  /** The holds a player enters for `value`: least significant bit first, a
      short hold for a 0 bit and a `ShortLimit` hold for a 1 bit. */
  function Encode(value: nat, length: nat): (holds: seq<nat>)
    ensures |holds| == length
    ensures forall i :: 0 <= i < length ==> holds[i] < RedoLimit
  {
    if length == 0 then []
    else [if value % 2 == 1 then ShortLimit else 0] + Encode(value / 2, length - 1)
  }

  lemma {:induction false} WeightOfEncode(value: nat, length: nat)
    requires value < Pow2(length)
    ensures Weight(Encode(value, length)) == value
    decreases length
  {
    if length > 0 {
      WeightOfEncode(value / 2, length - 1);
      WeightCons(if value % 2 == 1 then ShortLimit else 0, Encode(value / 2, length - 1));
    }
  }

  /** Decoding what the player entered for a value gives that value back,
      using exactly `length` holds. */
  lemma EncodeRoundTrip(value: nat, length: nat)
    requires value < Pow2(length)
    ensures Decode(Encode(value, length), length) == Some(Decoded(value, length))
  {
    var holds := Encode(value, length);
    KeptAllAccepted(holds, length);
    WeightOfEncode(value, length);
    assert holds[..length] == holds;
    var r := Decode(holds, length);
    KeptAllAccepted(holds, r.value.used);
  }
}
