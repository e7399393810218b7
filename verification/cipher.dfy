/** The cipher engine (implementation.c, encrypt and decrypt): password to
    tables, padding, and every 8-byte block transformed on its own (ECB). */
module Cipher {
  import opened Bytes
  import Feistel
  import SBoxes
  import Padding

  /** The bytes strlen counts: everything before the first zero byte, or
      all of s when it holds no zero. */
  function CString(s: seq<uint8>): (c: seq<uint8>)
    ensures |c| <= |s| && c == s[..|c|]
    ensures forall i :: 0 <= i < |c| ==> c[i] != 0
    ensures |c| < |s| ==> s[|c|] == 0
  {
    if |s| == 0 || s[0] == 0 then [] else [s[0]] + CString(s[1..])
  }

  /** generate_key: the digest of the password up to its first zero byte.
      `hash` stands for SHA-256, which is not part of this model. */
  function DeriveKey(password: seq<uint8>, hash: seq<uint8> -> Key): Key
  {
    hash(CString(password))
  }

  /** The sixteen round tables both encrypt and decrypt derive from the password. */
  function TablesFor(password: seq<uint8>, hash: seq<uint8> -> Key): SBoxSet
  {
    SBoxes.GenerateSboxes(DeriveKey(password, hash))
  }

  /** The block loop of encrypt and decrypt: block i of the result is `f`
      of block i of the input alone. */
  function MapBlocks(data: seq<uint8>, f: Block -> Block): (r: seq<uint8>)
    requires |data| % 8 == 0
    ensures |r| == |data|
    ensures forall i :: 0 <= i < |data| / 8 ==> r[8 * i .. 8 * i + 8] == f(data[8 * i .. 8 * i + 8])
    decreases |data|
  {
    if |data| == 0 then []
    else
      var rest := MapBlocks(data[8..], f);
      var r := f(data[..8]) + rest;
      BlocksOfPrepend(data, f, rest);
      r
  }

  lemma SliceOfAppend(a: seq<uint8>, b: seq<uint8>, x: nat, y: nat)
    requires |a| <= x <= y <= |a| + |b|
    ensures (a + b)[x..y] == b[x - |a| .. y - |a|]
  {
  }

  lemma SliceOfSuffix(s: seq<uint8>, k: nat, x: nat, y: nat)
    requires k + x <= k + y <= |s|
    ensures s[k..][x..y] == s[k + x .. k + y]
  {
  }

  /** Block i + 1 of `first + rest` is block i of rest: the step from the
      tail of the data to the whole. */
  lemma BlocksOfPrepend(data: seq<uint8>, f: Block -> Block, rest: seq<uint8>)
    requires |data| % 8 == 0 && |data| > 0 && |rest| == |data| - 8
    requires forall i :: 0 <= i < |rest| / 8 ==> rest[8 * i .. 8 * i + 8] == f(data[8..][8 * i .. 8 * i + 8])
    ensures forall i :: 0 <= i < |data| / 8 ==>
      (f(data[..8]) + rest)[8 * i .. 8 * i + 8] == f(data[8 * i .. 8 * i + 8])
  {
    var r := f(data[..8]) + rest;
    forall i | 0 <= i < |data| / 8
      ensures r[8 * i .. 8 * i + 8] == f(data[8 * i .. 8 * i + 8])
    {
      if i == 0 {
        assert r[0..8] == f(data[..8]);
        assert data[0..8] == data[..8];
      } else {
        SliceOfAppend(f(data[..8]), rest, 8 * i, 8 * i + 8);
        SliceOfSuffix(data, 8, 8 * (i - 1), 8 * (i - 1) + 8);
        assert r[8 * i .. 8 * i + 8] == f(data[8..][8 * (i - 1) .. 8 * (i - 1) + 8]);
      }
    }
  }

  /** Mapping every block with f and then with an inverse g of f gives the
      data back. */
  lemma {:induction false} MapBlocksInverse(data: seq<uint8>, f: Block -> Block, g: Block -> Block)
    requires |data| % 8 == 0
    requires forall b: Block :: g(f(b)) == b
    ensures MapBlocks(MapBlocks(data, f), g) == data
    decreases |data|
  {
    if |data| > 0 {
      var mapped := MapBlocks(data, f);
      assert mapped[..8] == f(data[..8]);
      assert mapped[8..] == MapBlocks(data[8..], f);
      MapBlocksInverse(data[8..], f, g);
      assert data == data[..8] + data[8..];
    }
  }

  /** The block loop of encrypt: every block through feistel_network. */
  function EncryptBlocks(padded: seq<uint8>, boxes: SBoxSet): (ciphertext: seq<uint8>)
    requires |padded| % 8 == 0
    ensures |ciphertext| == |padded|
    ensures forall i :: 0 <= i < |padded| / 8 ==>
      ciphertext[8 * i .. 8 * i + 8] == Feistel.FeistelNetwork(padded[8 * i .. 8 * i + 8], boxes)
  {
    MapBlocks(padded, b => Feistel.FeistelNetwork(b, boxes))
  }

  /** The body of encrypt once the tables are known: the plaintext up to its
      first zero byte, padded, then every block through feistel_network. */
  function EncryptWith(plaintext: seq<uint8>, boxes: SBoxSet): (ciphertext: seq<uint8>)
    ensures |ciphertext| == |Padding.AddPadding(CString(plaintext))|
    ensures forall i :: 0 <= i < |ciphertext| / 8 ==>
      ciphertext[8 * i .. 8 * i + 8] ==
        Feistel.FeistelNetwork(Padding.AddPadding(CString(plaintext))[8 * i .. 8 * i + 8], boxes)
  {
    EncryptBlocks(Padding.AddPadding(CString(plaintext)), boxes)
  }

  /** encrypt, under the tables derived from the password. */
  function Encrypt(plaintext: seq<uint8>, password: seq<uint8>, hash: seq<uint8> -> Key): (ciphertext: seq<uint8>)
    ensures |ciphertext| == |Padding.AddPadding(CString(plaintext))|
    ensures forall i :: 0 <= i < |ciphertext| / 8 ==>
      ciphertext[8 * i .. 8 * i + 8] ==
        Feistel.FeistelNetwork(Padding.AddPadding(CString(plaintext))[8 * i .. 8 * i + 8], TablesFor(password, hash))
  {
    EncryptWith(plaintext, TablesFor(password, hash))
  }

  /** The block loop of decrypt: every block through inverse_feistel_network. */
  function DecryptBlocks(ciphertext: seq<uint8>, boxes: SBoxSet): (padded: seq<uint8>)
    requires |ciphertext| % 8 == 0
    ensures |padded| == |ciphertext|
    ensures forall i :: 0 <= i < |ciphertext| / 8 ==>
      padded[8 * i .. 8 * i + 8] == Feistel.InverseFeistelNetwork(ciphertext[8 * i .. 8 * i + 8], boxes)
  {
    MapBlocks(ciphertext, b => Feistel.InverseFeistelNetwork(b, boxes))
  }

  /** The body of decrypt once the tables are known: the blocks deciphered
      one by one, then as many bytes stripped as the last deciphered byte
      says ('0' .. '8'), or none when it is any other value. */
  function DecryptWith(ciphertext: seq<uint8>, boxes: SBoxSet): (plaintext: seq<uint8>)
    requires |ciphertext| > 0 && |ciphertext| % 8 == 0
    ensures |ciphertext| - 8 <= |plaintext| <= |ciphertext|
    ensures plaintext == DecryptBlocks(ciphertext, boxes)[..|plaintext|]
    ensures var last := DecryptBlocks(ciphertext, boxes)[|ciphertext| - 1] as int;
      if Padding.DigitZero <= last <= Padding.DigitZero + 8 then |plaintext| == |ciphertext| - (last - Padding.DigitZero)
      else |plaintext| == |ciphertext|
  {
    var padded := DecryptBlocks(ciphertext, boxes);
    Padding.StripLengthFits(padded);
    Padding.RemovePadding(padded)
  }

  /** decrypt. The source copies whole 8-byte blocks and reads the last
      byte, so the ciphertext must be a positive multiple of the block size. */
  function Decrypt(ciphertext: seq<uint8>, password: seq<uint8>, hash: seq<uint8> -> Key): (plaintext: seq<uint8>)
    requires |ciphertext| > 0 && |ciphertext| % 8 == 0
    ensures |ciphertext| - 8 <= |plaintext| <= |ciphertext|
    ensures plaintext == DecryptBlocks(ciphertext, TablesFor(password, hash))[..|plaintext|]
    ensures var last := DecryptBlocks(ciphertext, TablesFor(password, hash))[|ciphertext| - 1] as int;
      if Padding.DigitZero <= last <= Padding.DigitZero + 8 then |plaintext| == |ciphertext| - (last - Padding.DigitZero)
      else |plaintext| == |ciphertext|
  {
    DecryptWith(ciphertext, TablesFor(password, hash))
  }

  /** Decrypting a ciphertext with the password that produced it gives back
      the plaintext up to its first zero byte. */
  lemma DecryptEncrypt(plaintext: seq<uint8>, password: seq<uint8>, hash: seq<uint8> -> Key)
    ensures |Encrypt(plaintext, password, hash)| > 0 && |Encrypt(plaintext, password, hash)| % 8 == 0
    ensures Decrypt(Encrypt(plaintext, password, hash), password, hash) == CString(plaintext)
  {
    var boxes := TablesFor(password, hash);
    var padded := Padding.AddPadding(CString(plaintext));
    var forward := (b: Block) => Feistel.FeistelNetwork(b, boxes);
    var inverse := (b: Block) => Feistel.InverseFeistelNetwork(b, boxes);
    forall b: Block
      ensures inverse(forward(b)) == b
    {
      Feistel.InverseUndoesForward(b, boxes);
    }
    MapBlocksInverse(padded, forward, inverse);
    Padding.RemoveAddPadding(CString(plaintext));
  }

  /** Equal plaintext blocks give equal ciphertext blocks under one password:
      there is no chaining between blocks. */
  lemma EqualBlocksEncryptEqually(plaintext: seq<uint8>, password: seq<uint8>, hash: seq<uint8> -> Key, i: nat, j: nat)
    requires i < |Padding.AddPadding(CString(plaintext))| / 8 && j < |Padding.AddPadding(CString(plaintext))| / 8
    requires Padding.AddPadding(CString(plaintext))[8 * i .. 8 * i + 8] == Padding.AddPadding(CString(plaintext))[8 * j .. 8 * j + 8]
    ensures Encrypt(plaintext, password, hash)[8 * i .. 8 * i + 8] == Encrypt(plaintext, password, hash)[8 * j .. 8 * j + 8]
  {
  }
}
