/** Table generation (implementation.c, generate_single_sbox and
    generate_sboxes): a keyed shuffle of the identity table, sixteen copies
    of it, a round-robin shuffle of all 4096 bytes, and a split into the
    sixteen round tables. */
module SBoxes {
  import opened Bytes
  import Counting
  import Shuffle

  /** The table with entry i equal to i. */
  function Identity(): (box: SBox)
    ensures forall i :: 0 <= i < 256 ==> box[i] as int == i
  {
    seq(256, i requires 0 <= i < 256 => i as uint8)
  }

  /** No byte value occurs twice. */
  predicate Distinct(s: seq<uint8>)
  {
    forall i, j :: 0 <= i < j < |s| ==> s[i] != s[j]
  }

  /** Every byte value occurs exactly once. */
  ghost predicate IsPermutation(box: SBox)
  {
    Distinct(box) && forall v: uint8 :: v in box
  }

  /** A table holding the same bytes as a permutation, none twice, is one. */
  lemma PermutationByMultiset(p: SBox, box: SBox)
    requires IsPermutation(p) && Distinct(box)
    requires multiset(box) == multiset(p)
    ensures IsPermutation(box)
  {
    forall v: uint8
      ensures v in box
    {
      assert v in p;
      assert v in multiset(p);
    }
  }

  lemma IdentityIsPermutation()
    ensures IsPermutation(Identity())
  {
    var id := Identity();
    forall v: uint8
      ensures v in id
    {
      assert id[v as int] == v;
    }
  }

  /** Exchange of the entries at i and j. */
  function Swap(box: SBox, i: nat, j: nat): (r: SBox)
    requires i < 256 && j < 256
    ensures multiset(r) == multiset(box)
    ensures Distinct(box) ==> Distinct(r)
  {
    box[i := box[j]][j := box[i]]
  }

  /** Partner of position i in the keyed shuffle: (i + key[i mod 32]) mod 256. */
  function SwapTarget(key: Key, i: nat): (j: nat)
    requires i < 256
    ensures j < 256
  {
    (i + key[i % 32] as int) % 256
  }

  /** The swap loop of generate_single_sbox from position i on. */
  function KeyedSwaps(box: SBox, key: Key, i: nat): (r: SBox)
    requires i <= 256
    ensures multiset(r) == multiset(box)
    ensures Distinct(box) ==> Distinct(r)
    decreases 256 - i
  {
    if i == 256 then box else KeyedSwaps(Swap(box, i, SwapTarget(key, i)), key, i + 1)
  }

  /** generate_single_sbox, given the key digest: the identity table after
      256 keyed swaps. It is a permutation of 0 .. 255 for every key. */
  function GenerateSingleSbox(key: Key): (box: SBox)
    ensures IsPermutation(box)
  {
    IdentityIsPermutation();
    var r := KeyedSwaps(Identity(), key, 0);
    PermutationByMultiset(Identity(), r);
    r
  }

  /** n copies of a table side by side (the memcpy loop of generate_sboxes). */
  function Replicate(box: SBox, n: nat): (r: seq<uint8>)
    ensures |r| == 256 * n
    ensures forall i :: 0 <= i < |r| ==> r[i] == box[i % 256]
  {
    if n == 0 then []
    else
      var rest := Replicate(box, n - 1);
      assert forall i :: 256 <= i < 256 + |rest| ==> (box + rest)[i] == rest[i - 256];
      box + rest
  }

  /** Bytes 256 t .. 256 t + 255 of the buffer become table t. */
  function SplitTables(buf: seq<uint8>): (boxes: SBoxSet)
    requires |buf| == 4096
  {
    seq(16, t requires 0 <= t < 16 => buf[256 * t .. 256 * t + 256])
  }

  /** The sixteen tables laid end to end. */
  function Flatten(boxes: SBoxSet): (buf: seq<uint8>)
    ensures |buf| == 4096
    ensures forall t, i :: 0 <= t < 16 && 0 <= i < 256 ==> buf[256 * t + i] == boxes[t][i]
  {
    seq(4096, j requires 0 <= j < 4096 => boxes[j / 256][j % 256])
  }

  lemma FlattenSplitTables(buf: seq<uint8>)
    requires |buf| == 4096
    ensures Flatten(SplitTables(buf)) == buf
  {
    var boxes := SplitTables(buf);
    var flat := Flatten(boxes);
    forall j | 0 <= j < 4096
      ensures flat[j] == buf[j]
    {
      var t := j / 256;
      var i := j % 256;
      assert j == 256 * t + i;
      assert boxes[t][i] == buf[256 * t + i];
    }
  }

  lemma AllTablesSizeIsPowerOfTwo()
    ensures Shuffle.IsPowerOfTwo(4096)
  {
  }

  /** The buffer generate_sboxes hands to round_robin_shuffle. */
  function ShuffleInput(key: Key): (buf: seq<uint8>)
    ensures |buf| == 4096 && Shuffle.IsPowerOfTwo(|buf|)
  {
    AllTablesSizeIsPowerOfTwo();
    Replicate(GenerateSingleSbox(key), 16)
  }

  /** generate_sboxes, given the key digest. */
  function GenerateSboxes(key: Key): SBoxSet
  {
    SplitTables(Shuffle.RoundRobinShuffle(ShuffleInput(key)))
  }

  /** Source byte k of the replicated buffer, a copy of base entry k mod 256,
      ends up at offset k(k+1)/2 mod 4096 of the sixteen tables. */
  lemma GenerateSboxesPlacement(key: Key)
    ensures forall k :: 0 <= k < 4096 ==>
      Flatten(GenerateSboxes(key))[Shuffle.Slot(k, 4096)] == GenerateSingleSbox(key)[k % 256]
  {
    var buf := ShuffleInput(key);
    Shuffle.ShufflePlaces(buf);
    FlattenSplitTables(Shuffle.RoundRobinShuffle(buf));
  }

  lemma {:induction false} ReplicateCount(box: SBox, n: nat, v: uint8)
    requires multiset(box)[v] == 1
    ensures multiset(Replicate(box, n))[v] == n
  {
    if n > 0 {
      ReplicateCount(box, n - 1, v);
    }
  }

  /** In a permutation every byte value occurs once. */
  lemma PermutationCount(box: SBox, v: uint8)
    requires IsPermutation(box)
    ensures multiset(box)[v] == 1
  {
    var k := Counting.IndexOf(box, v);
    forall j | j in Counting.Indices(box, v)
      ensures j == k
    {
    }
    assert Counting.Indices(box, v) == {k};
    Counting.CountIsIndices(box, v);
    assert |Counting.Indices(box, v)| == 1;
  }

  /** Taken together, the sixteen tables hold every byte value exactly
      sixteen times. */
  lemma TablesHoldSixteenCopies(key: Key)
    ensures forall v: uint8 :: multiset(Flatten(GenerateSboxes(key)))[v] == 16
  {
    var buf := ShuffleInput(key);
    Shuffle.ShuffleIsRearrangement(buf);
    FlattenSplitTables(Shuffle.RoundRobinShuffle(buf));
    forall v: uint8
      ensures multiset(buf)[v] == 16
    {
      PermutationCount(GenerateSingleSbox(key), v);
      ReplicateCount(GenerateSingleSbox(key), 16, v);
    }
  }

  /** Shuffling 4096 bytes moves source bytes 0 and 256 to offsets 0 and
      128, both inside table 0. */
  lemma ShuffledTableZero(buf: seq<uint8>)
    requires |buf| == 4096 && Shuffle.IsPowerOfTwo(|buf|)
    ensures SplitTables(Shuffle.RoundRobinShuffle(buf))[0][0] == buf[0]
    ensures SplitTables(Shuffle.RoundRobinShuffle(buf))[0][128] == buf[256]
  {
    var shuffled := Shuffle.RoundRobinShuffle(buf);
    Shuffle.ShufflePlaces(buf);
    SlotOfSecondCopy(256);
    assert Shuffle.Slot(0, 4096) == 0;
    assert shuffled[0] == buf[0];
    assert shuffled[128] == buf[256];
  }

  /** Source bytes 0 and 256 are both copies of base entry 0, so table 0
      holds base entry 0 twice, at indices 0 and 128. */
  lemma FirstTableRepeatsEntry(key: Key)
    ensures GenerateSboxes(key)[0][0] == GenerateSboxes(key)[0][128]
  {
    var buf := ShuffleInput(key);
    assert buf[0] == buf[256];
    ShuffledTableZero(buf);
  }

  /** 256 * 257 / 2 = 32896 = 8 * 4096 + 128. The index is a parameter
      rather than the literal 256 so that the verifier does not unroll Tri
      256 times. */
  lemma SlotOfSecondCopy(k: nat)
    requires k == 256
    ensures Shuffle.Slot(k, 4096) == 128
  {
    Shuffle.TriClosedForm(k);
  }

  /** So the round tables need not be permutations. */
  lemma FirstTableNotPermutation(key: Key)
    ensures !IsPermutation(GenerateSboxes(key)[0])
  {
    FirstTableRepeatsEntry(key);
  }
}
