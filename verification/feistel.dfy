/** The round function and the 16-round Feistel network (implementation.c,
    feistel_function, feistel_network and inverse_feistel_network). */
module Feistel {
  import opened Bytes

  /** Sum of the bytes of `s` as an unbounded integer. */
  function ByteSum(s: seq<uint8>): nat
  {
    if |s| == 0 then 0 else s[0] as int + ByteSum(s[1..])
  }

  /** Table index of output byte `i` of the round function:
      in[3] + in[2] + ... + in[3 - i], reduced modulo 256. */
  function ChainIndex(input: Half, i: nat): (idx: nat)
    requires i < 4
    ensures idx < 256
  {
    ByteSum(input[3 - i..]) % 256
  }

  /** The chain starts at in[3]. */
  lemma ChainIndexFirst(input: Half)
    ensures ChainIndex(input, 0) == input[3] as int
  {
    assert input[3..][1..] == [];
    assert ByteSum(input[3..]) == input[3] as int + ByteSum([]);
  }

  /** Each step of the chain adds the next byte, from in[3] down to in[0]. */
  lemma ChainIndexStep(input: Half, i: nat)
    requires 0 < i < 4
    ensures ChainIndex(input, i) == (ChainIndex(input, i - 1) + input[3 - i] as int) % 256
  {
    assert input[3 - i..][1..] == input[4 - i..];
  }

  /** feistel_function: a chained lookup. The uint8_t index starts at in[3]
      and then accumulates in[2], in[1] and in[0], wrapping at 256; each
      value of the index selects one output byte. */
  function FeistelFunction(input: Half, box: SBox): Half
  {
    var index0 := input[3] as int;
    var index1 := (index0 + input[2] as int) % 256;
    var index2 := (index1 + input[1] as int) % 256;
    var index3 := (index2 + input[0] as int) % 256;
    [box[index0], box[index1], box[index2], box[index3]]
  }

  /** Output byte i is the table entry at in[3] + ... + in[3 - i] (mod 256). */
  lemma FeistelFunctionChain(input: Half, box: SBox)
    ensures forall i :: 0 <= i < 4 ==> FeistelFunction(input, box)[i] == box[ChainIndex(input, i)]
  {
    var out := FeistelFunction(input, box);
    ChainIndexFirst(input);
    ChainIndexStep(input, 1);
    ChainIndexStep(input, 2);
    ChainIndexStep(input, 3);
    assert out[0] == box[ChainIndex(input, 0)];
    assert out[1] == box[ChainIndex(input, 1)];
    assert out[2] == box[ChainIndex(input, 2)];
    assert out[3] == box[ChainIndex(input, 3)];
  }

  /** The round function reads exactly four table entries: tables that agree
      on them give the same output. */
  lemma FeistelFunctionReadsChain(input: Half, box1: SBox, box2: SBox)
    requires forall i :: 0 <= i < 4 ==> box1[ChainIndex(input, i)] == box2[ChainIndex(input, i)]
    ensures FeistelFunction(input, box1) == FeistelFunction(input, box2)
  {
    FeistelFunctionChain(input, box1);
    FeistelFunctionChain(input, box2);
  }

  /** Byte-wise exclusive or of two halves. */
  function Xor(a: Half, b: Half): Half
  {
    seq(4, i requires 0 <= i < 4 => XorByte(a[i], b[i]))
  }

  lemma XorTwice(a: Half, b: Half)
    ensures Xor(Xor(a, b), b) == a
  {
    var twice := Xor(Xor(a, b), b);
    forall i | 0 <= i < 4
      ensures twice[i] == a[i]
    {
      XorByteTwice(a[i], b[i]);
    }
  }

  /** The network state: the left half L (block bytes 0-3) and the right half
      R (block bytes 4-7). */
  datatype Halves = Halves(left: Half, right: Half)

  function Split(block: Block): (h: Halves)
    ensures h.left + h.right == block
  {
    Halves(block[..4], block[4..])
  }

  /** L || R, with no final swap of the halves. */
  function Join(h: Halves): (block: Block)
    ensures Split(block) == h
  {
    h.left + h.right
  }

  /** One round of feistel_network: (L, R) -> (R, L xor F(R)). */
  function EncryptRound(h: Halves, box: SBox): Halves
  {
    Halves(h.right, Xor(h.left, FeistelFunction(h.right, box)))
  }

  /** One round of inverse_feistel_network: (L, R) -> (R xor F(L), L). */
  function DecryptRound(h: Halves, box: SBox): Halves
  {
    Halves(Xor(h.right, FeistelFunction(h.left, box)), h.left)
  }

  lemma DecryptRoundUndoesEncryptRound(h: Halves, box: SBox)
    ensures DecryptRound(EncryptRound(h, box), box) == h
  {
    XorTwice(h.left, FeistelFunction(h.right, box));
  }

  lemma EncryptRoundUndoesDecryptRound(h: Halves, box: SBox)
    ensures EncryptRound(DecryptRound(h, box), box) == h
  {
    XorTwice(h.right, FeistelFunction(h.left, box));
  }

  /** Rounds lo, lo + 1, ..., hi - 1 in ascending order, as the loop of
      feistel_network runs them. */
  function EncryptRounds(h: Halves, boxes: SBoxSet, lo: nat, hi: nat): Halves
    requires lo <= hi <= 16
    decreases hi - lo
  {
    if lo == hi then h else EncryptRounds(EncryptRound(h, boxes[lo]), boxes, lo + 1, hi)
  }

  /** Rounds hi - 1, hi - 2, ..., lo in descending order, as the loop of
      inverse_feistel_network runs them. */
  function DecryptRounds(h: Halves, boxes: SBoxSet, lo: nat, hi: nat): Halves
    requires lo <= hi <= 16
    decreases hi - lo
  {
    if lo == hi then h else DecryptRounds(DecryptRound(h, boxes[hi - 1]), boxes, lo, hi - 1)
  }

  /** feistel_network: split, rounds 0 .. 15, join. */
  function FeistelNetwork(block: Block, boxes: SBoxSet): Block
  {
    Join(EncryptRounds(Split(block), boxes, 0, 16))
  }

  /** inverse_feistel_network: split, rounds 15 .. 0, join. */
  function InverseFeistelNetwork(block: Block, boxes: SBoxSet): Block
  {
    Join(DecryptRounds(Split(block), boxes, 0, 16))
  }

  /** Round hi - 1 of the ascending loop acts on the state left by rounds
      lo .. hi - 2. */
  lemma {:induction false} EncryptRoundsLast(h: Halves, boxes: SBoxSet, lo: nat, hi: nat)
    requires lo < hi <= 16
    ensures EncryptRounds(h, boxes, lo, hi) == EncryptRound(EncryptRounds(h, boxes, lo, hi - 1), boxes[hi - 1])
    decreases hi - lo
  {
    if lo + 1 < hi {
      EncryptRoundsLast(EncryptRound(h, boxes[lo]), boxes, lo + 1, hi);
    }
  }

  /** Round lo of the descending loop acts on the state left by rounds
      hi - 1 .. lo + 1. */
  lemma {:induction false} DecryptRoundsLast(h: Halves, boxes: SBoxSet, lo: nat, hi: nat)
    requires lo < hi <= 16
    ensures DecryptRounds(h, boxes, lo, hi) == DecryptRound(DecryptRounds(h, boxes, lo + 1, hi), boxes[lo])
    decreases hi - lo
  {
    if lo + 1 < hi {
      var first := DecryptRound(h, boxes[hi - 1]);
      DecryptRoundsLast(first, boxes, lo, hi - 1);
      assert DecryptRounds(h, boxes, lo, hi) == DecryptRounds(first, boxes, lo, hi - 1);
      assert DecryptRounds(h, boxes, lo + 1, hi) == DecryptRounds(first, boxes, lo + 1, hi - 1);
    }
  }

  /** Undoing rounds lo .. hi - 1 starts by undoing round hi - 1. */
  lemma DecryptPeelsLastRound(h: Halves, boxes: SBoxSet, lo: nat, hi: nat)
    requires lo < hi <= 16
    ensures DecryptRounds(EncryptRounds(h, boxes, lo, hi), boxes, lo, hi)
         == DecryptRounds(EncryptRounds(h, boxes, lo, hi - 1), boxes, lo, hi - 1)
  {
    var before := EncryptRounds(h, boxes, lo, hi - 1);
    var after := EncryptRounds(h, boxes, lo, hi);
    EncryptRoundsLast(h, boxes, lo, hi);
    DecryptRoundUndoesEncryptRound(before, boxes[hi - 1]);
    assert DecryptRounds(after, boxes, lo, hi) == DecryptRounds(DecryptRound(after, boxes[hi - 1]), boxes, lo, hi - 1);
  }

  lemma {:induction false} DecryptRoundsUndoEncryptRounds(h: Halves, boxes: SBoxSet, lo: nat, hi: nat)
    requires lo <= hi <= 16
    ensures DecryptRounds(EncryptRounds(h, boxes, lo, hi), boxes, lo, hi) == h
    decreases hi - lo
  {
    if lo < hi {
      DecryptPeelsLastRound(h, boxes, lo, hi);
      DecryptRoundsUndoEncryptRounds(h, boxes, lo, hi - 1);
    }
  }

  /** Redoing rounds hi - 1 .. lo starts by redoing round lo. */
  lemma EncryptPeelsFirstRound(h: Halves, boxes: SBoxSet, lo: nat, hi: nat)
    requires lo < hi <= 16
    ensures EncryptRounds(DecryptRounds(h, boxes, lo, hi), boxes, lo, hi)
         == EncryptRounds(DecryptRounds(h, boxes, lo + 1, hi), boxes, lo + 1, hi)
  {
    var after := DecryptRounds(h, boxes, lo + 1, hi);
    var all := DecryptRounds(h, boxes, lo, hi);
    DecryptRoundsLast(h, boxes, lo, hi);
    EncryptRoundUndoesDecryptRound(after, boxes[lo]);
    assert EncryptRounds(all, boxes, lo, hi) == EncryptRounds(EncryptRound(all, boxes[lo]), boxes, lo + 1, hi);
  }

  lemma {:induction false} EncryptRoundsUndoDecryptRounds(h: Halves, boxes: SBoxSet, lo: nat, hi: nat)
    requires lo <= hi <= 16
    ensures EncryptRounds(DecryptRounds(h, boxes, lo, hi), boxes, lo, hi) == h
    decreases hi - lo
  {
    if lo < hi {
      EncryptPeelsFirstRound(h, boxes, lo, hi);
      EncryptRoundsUndoDecryptRounds(h, boxes, lo + 1, hi);
    }
  }

  /** Decryption undoes encryption for every block and every 16 tables,
      whether or not the tables are permutations. */
  lemma InverseUndoesForward(block: Block, boxes: SBoxSet)
    ensures InverseFeistelNetwork(FeistelNetwork(block, boxes), boxes) == block
  {
    DecryptRoundsUndoEncryptRounds(Split(block), boxes, 0, 16);
  }

  lemma ForwardUndoesInverse(block: Block, boxes: SBoxSet)
    ensures FeistelNetwork(InverseFeistelNetwork(block, boxes), boxes) == block
  {
    EncryptRoundsUndoDecryptRounds(Split(block), boxes, 0, 16);
  }
}
