/** The choice dispatch of `menu`: a 2-bit code read with the decoder. */
module Menu {
  import opened Ascii
  import opened Decoder

  const MenuBits: nat := 2

  datatype Choice = Instructions | Quit | StartPlay | Nothing | Invalid

  /** The if-chain of `menu` on the decoded code: 3 shows the instructions,
      0 quits, 2 plays, 1 does nothing and anything else is reported as
      invalid input. */
  function Dispatch(code: byte): (c: Choice)
    ensures c == Invalid <==> code > 3
    ensures c == Quit <==> code == 0
    ensures c == Nothing <==> code == 1
    ensures c == StartPlay <==> code == 2
    ensures c == Instructions <==> code == 3
  {
    if code == 3 then Instructions
    else if code == 0 then Quit
    else if code == 2 then StartPlay
    else if code == 1 then Nothing
    else Invalid
  }

  /** A code read from two bits is 0..3, so the "Invalid input" branch of the
      menu can never be taken. */
  lemma MenuNeverInvalid(holds: seq<nat>)
    ensures Decode(holds, MenuBits).Some? ==>
              Dispatch(ToByte(Decode(holds, MenuBits).value.value)) != Invalid
  {
    assert Pow2(MenuBits) == 4;
  }

  /** The codes printed on the menu screen, read in the order they are
      entered: "0-1" plays, "1-1" shows the instructions and "0-0" quits. */
  lemma MenuScreenCodes()
    ensures Decode([0, ShortLimit], MenuBits) == Some(Decoded(2, 2))
    ensures Dispatch(2) == StartPlay
    ensures Decode([ShortLimit, ShortLimit], MenuBits) == Some(Decoded(3, 2))
    ensures Dispatch(3) == Instructions
    ensures Decode([0, 0], MenuBits) == Some(Decoded(0, 2))
  {
    assert Encode(2, 2) == [0, ShortLimit];
    EncodeRoundTrip(2, 2);
    assert Encode(3, 2) == [ShortLimit, ShortLimit];
    EncodeRoundTrip(3, 2);
    assert Encode(0, 2) == [0, 0];
    EncodeRoundTrip(0, 2);
  }
}
