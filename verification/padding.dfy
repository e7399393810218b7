/** The padding codec (implementation.c, add_padding and remove_padding).
    It resembles PKCS #7 (section 6.3 of RFC 5652), but every pad byte is the
    ASCII digit for the pad length, '1' .. '8', rather than the length itself. */
module Padding {
  import opened Bytes

  /** ASCII '0'. */
  const DigitZero: int := 48

  /** Number of pad bytes for a plaintext of n bytes: 8 - n mod 8, so a
      whole extra block when n is already a multiple of 8. */
  function PadLength(n: nat): (p: nat)
    ensures 1 <= p <= 8
    ensures (n + p) % 8 == 0
  {
    BlockSize - n % BlockSize
  }

  /** add_padding: appends PadLength(|plaintext|) copies of the digit
      PadLength(|plaintext|) + '0'. */
  function AddPadding(plaintext: seq<uint8>): (padded: seq<uint8>)
    ensures |padded| == |plaintext| + PadLength(|plaintext|)
    ensures |padded| % 8 == 0 && |padded| > |plaintext|
    ensures padded[..|plaintext|] == plaintext
    ensures forall i :: |plaintext| <= i < |padded| ==> padded[i] as int == PadLength(|plaintext|) + DigitZero
  {
    var p := PadLength(|plaintext|);
    plaintext + seq(p, _ => (p + DigitZero) as uint8)
  }

  /** The C expression `padded[len - 1] - '0'`: an int that is negative for
      bytes below '0', converted to a 64-bit size_t. */
  function PadCandidate(last: uint8): nat
  {
    (last as int - DigitZero) % 0x1_0000_0000_0000_0000
  }

  /** Number of bytes remove_padding strips: the candidate, or 0 when the
      candidate exceeds the block size. */
  function StripLength(padded: seq<uint8>): nat
    requires |padded| > 0
  {
    var candidate := PadCandidate(padded[|padded| - 1]);
    if candidate > BlockSize then 0 else candidate
  }

  /** remove_padding. The source reads padded[len - 1] and subtracts the
      strip length from len, so it needs a non-empty input at least as long
      as the bytes it strips. */
  function RemovePadding(padded: seq<uint8>): (plaintext: seq<uint8>)
    requires |padded| > 0 && StripLength(padded) <= |padded|
    ensures |plaintext| <= |padded| && plaintext == padded[..|plaintext|]
    ensures var last := padded[|padded| - 1] as int;
      if DigitZero <= last <= DigitZero + 8 then |plaintext| == |padded| - (last - DigitZero)
      else |plaintext| == |padded|
  {
    padded[..|padded| - StripLength(padded)]
  }

  /** Removing the padding recovers the plaintext, for every length. */
  lemma RemoveAddPadding(plaintext: seq<uint8>)
    ensures RemovePadding(AddPadding(plaintext)) == plaintext
  {
    var padded := AddPadding(plaintext);
    assert padded[|padded| - 1] as int == PadLength(|plaintext|) + DigitZero;
  }

  /** Any input of at least one block meets the requirement of remove_padding. */
  lemma StripLengthFits(padded: seq<uint8>)
    requires |padded| >= BlockSize
    ensures StripLength(padded) <= |padded|
  {
  }
}
