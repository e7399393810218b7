# TP1CA cipher engine in Dafny

A model of the block cipher in `implementation.c` of TP1CA, with proofs about it.
The cipher derives sixteen 256-byte substitution tables from a password.
It pads the plaintext to a multiple of 8 bytes and runs every 8-byte block on its own (ECB) through a 16-round Feistel network.

Modules:

- `Bytes` (`bytes.dfy`) holds the sizes from `implementation.h` and the byte type. `uint8` is a newtype over `0 .. 255`. Its `^` is defined bit by bit, from the least significant bit up. Every sum that wraps in C is reduced modulo 256 explicitly.
- `Feistel` (`feistel.dfy`) models `feistel_function`, `feistel_network` and `inverse_feistel_network`. A round state is the pair of halves `(L, R)`.
- `Shuffle` (`shuffle.dfy`) models `round_robin_shuffle`. Its loop is a tail-recursive function with the same variables as the C loop: `index`, `new_index` and `shift`.
- `SBoxes` (`sboxes.dfy`) models `generate_single_sbox` and `generate_sboxes`. Both take the 32-byte key digest as input.
- `Padding` (`padding.dfy`) models `add_padding` and `remove_padding`. The `size_t` wrap-around of `last - '0'` is written out.
- `Cipher` (`cipher.dfy`) models `encrypt` and `decrypt`, including the `strlen` cut of the plaintext and of the password.
- `Counting` and `Arithmetic` (`counting.dfy`, `arithmetic.dfy`) hold general facts about multisets, finite sets, powers of two and remainders. The shuffle proofs use them.

Main results:

- Decryption inverts encryption for any sixteen tables, in both orders.
- The shuffle moves byte k to offset k(k+1)/2 mod 4096. That map is a bijection when the size is a power of two, so the shuffle is a rearrangement.
- The sixteen tables together hold every byte value exactly sixteen times. Table 0 still repeats an entry for every key, so a single round table is in general not a permutation.
- `decrypt(encrypt(P))` equals P up to its first zero byte.

## Model

| member | source | states |
|---|---|---|
| Bytes.XorBitsTwice | implementation.c:75 | exclusive or with the same w bits twice returns any w-bit value unchanged |
| Bytes.XorByteTwice | implementation.c:112 | (a ^ b) ^ b == a for all uint8_t a and b |
| Feistel.XorTwice | implementation.c:73-76 | xoring a half with the same round-function output twice gives the half back |
| Feistel.ChainIndexStep | implementation.c:37-44 | each lookup index is the previous index plus the next input byte, from in[3] down to in[0], wrapping modulo 256 |
| Feistel.FeistelFunctionChain | implementation.c:24-47 | output byte i of the round function is the table entry at in[3] + ... + in[3-i] mod 256 |
| Feistel.FeistelFunctionReadsChain | implementation.c:34-44 | the round function reads only the four chained table entries: tables that agree on those give the same output |
| Feistel.Split | implementation.c:60-62 | L is bytes 0-3 and R is bytes 4-7 of the block, and together they are the block |
| Feistel.Join | implementation.c:81-83 | writing L then R gives a block that splits back into the same halves (no final swap) |
| Feistel.DecryptRoundUndoesEncryptRound | implementation.c:65-79 | a decryption round with the same table undoes an encryption round |
| Feistel.EncryptRoundUndoesDecryptRound | implementation.c:100-116 | an encryption round with the same table undoes a decryption round |
| Feistel.EncryptRoundsLast | implementation.c:65-79 | the ascending loop applies round hi-1 last, with table hi-1, to the state left by the earlier rounds |
| Feistel.DecryptRoundsLast | implementation.c:100-116 | the descending loop applies round lo last, with table lo, to the state left by rounds hi-1 down to lo+1 |
| Feistel.DecryptPeelsLastRound | implementation.c:100-116 | the first descending round undoes the last ascending round, which leaves rounds lo .. hi-2 to undo |
| Feistel.EncryptPeelsFirstRound | implementation.c:65-79 | the first ascending round undoes the last descending round, which leaves rounds lo+1 .. hi-1 to redo |
| Feistel.DecryptRoundsUndoEncryptRounds | implementation.c:49-121 | rounds hi-1 .. lo in descending order undo rounds lo .. hi-1 in ascending order, for any tables |
| Feistel.EncryptRoundsUndoDecryptRounds | implementation.c:49-121 | rounds lo .. hi-1 in ascending order undo rounds hi-1 .. lo in descending order, for any tables |
| Feistel.InverseUndoesForward | implementation.c:49-121 | inverse_feistel_network after feistel_network is the identity on blocks, for any sixteen tables |
| Feistel.ForwardUndoesInverse | implementation.c:49-121 | feistel_network after inverse_feistel_network is the identity on blocks, for any sixteen tables |
| SBoxes.Identity | implementation.c:137-140 | the initial table holds i at position i |
| SBoxes.Swap | implementation.c:144-148 | one exchange keeps the multiset of entries and keeps them distinct |
| SBoxes.SwapTarget | implementation.c:144 | the exchange partner (i + key[i mod 32]) mod 256 is a valid position |
| SBoxes.KeyedSwaps | implementation.c:142-149 | the 256 keyed exchanges keep the multiset of entries and their distinctness |
| SBoxes.GenerateSingleSbox | implementation.c:131-152 | the base table is a permutation of 0 .. 255 for every key |
| SBoxes.Replicate | implementation.c:206-209 | sixteen side-by-side copies: byte i of the buffer is base entry i mod 256, and the length is 4096 |
| SBoxes.Flatten | implementation.c:215-221 | table t, entry i sits at offset 256 t + i of the shuffled buffer |
| SBoxes.FlattenSplitTables | implementation.c:215-221 | splitting the buffer into sixteen tables loses and reorders nothing |
| SBoxes.GenerateSboxesPlacement | implementation.c:186-224 | replicated byte k, a copy of base entry k mod 256, lands at offset k(k+1)/2 mod 4096 of the tables |
| SBoxes.TablesHoldSixteenCopies | implementation.c:186-224 | across the sixteen tables every byte value occurs exactly sixteen times |
| SBoxes.ShuffledTableZero | implementation.c:213-221 | after the shuffle, entries 0 and 128 of table 0 are source bytes 0 and 256 |
| SBoxes.FirstTableRepeatsEntry | implementation.c:206-221 | sboxes[0][0] == sboxes[0][128] for every key |
| SBoxes.FirstTableNotPermutation | implementation.c:186-224 | round table 0 is never a permutation of 0 .. 255 |
| Shuffle.TriClosedForm | implementation.c:164-176 | the cursor after k steps is 0 + 1 + ... + k, which is k(k+1)/2 |
| Shuffle.SlotInjective | implementation.c:166-176 | for a size 2^e, distinct source indices a < b < 2^e get distinct slots k(k+1)/2 mod 2^e |
| Shuffle.ShuffleLoopPlaces | implementation.c:164-176 | loop invariant: every element already visited sits at its slot, and later writes never overwrite it |
| Shuffle.ShufflePlaces | implementation.c:154-184 | on a power-of-two size, element k of the input ends at offset k(k+1)/2 mod size |
| Shuffle.SlotMapBijective | implementation.c:166-176 | on 0 .. 2^e - 1 the slot map is injective, stays in range and reaches every slot |
| Shuffle.ShuffleIsRearrangement | implementation.c:154-184 | the output is a rearrangement of the input: the same multiset of bytes |
| Shuffle.ShuffleUnique | implementation.c:154-184 | the placement fixes the whole output: every slot of the scratch buffer is written before it is copied back |
| Padding.PadLength | implementation.c:228-230 | 1 to 8 bytes are added, and they make the length a multiple of 8 |
| Padding.AddPadding | implementation.c:226-249 | the output is the plaintext followed by p copies of '0' + p, and its length is the next multiple of 8 strictly above the input length |
| Padding.RemovePadding | implementation.c:251-272 | the output is a prefix of the input: a last byte in '0' .. '8' strips that many bytes, any other value strips none |
| Padding.StripLengthFits | implementation.c:253-260 | on an input of at least one block, the strip length never exceeds the input length |
| Padding.RemoveAddPadding | implementation.c:226-272 | remove_padding undoes add_padding for every plaintext length |
| Cipher.CString | implementation.c:276 | the strlen prefix: it holds no zero byte, and it stops at the first zero byte or at the end |
| Cipher.MapBlocks | implementation.c:308-335 | block i of the output is the block function applied to block i of the input alone, and the length is unchanged |
| Cipher.MapBlocksInverse | implementation.c:308-335 | mapping the blocks with f and then with an inverse of f gives the data back |
| Cipher.EncryptBlocks | implementation.c:308-335 | block i of the ciphertext is feistel_network of padded block i, and the length is unchanged |
| Cipher.EncryptWith | implementation.c:276-335 | under given tables, the ciphertext is as long as the padded strlen prefix, and block i is feistel_network of padded block i |
| Cipher.Encrypt | implementation.c:274-343 | the ciphertext is as long as the padded strlen prefix, and block i is feistel_network of padded block i under the password's tables |
| Cipher.DecryptBlocks | implementation.c:374-400 | block i of the padded plaintext is inverse_feistel_network of ciphertext block i |
| Cipher.DecryptWith | implementation.c:345-407 | the plaintext is a prefix of the deciphered blocks: a last deciphered byte in '0' .. '8' strips that many bytes, any other value strips none |
| Cipher.Decrypt | implementation.c:345-407 | decrypt under the password's tables: the deciphered blocks with as many bytes stripped as a last byte in '0' .. '8' says, and none stripped for any other last byte |
| Cipher.DecryptEncrypt | implementation.c:274-407 | decrypt of encrypt with the same password returns the plaintext up to its first zero byte |
| Cipher.EqualBlocksEncryptEqually | implementation.c:308-335 | equal padded blocks encrypt to equal ciphertext blocks: there is no chaining |

## Left out

- `read_bytes` and `write_bytes` are left out because they are standard-input and standard-output I/O.
- `generate_key` is SHA-256 of the password's strlen prefix. SHA-256 is not part of this model. `Cipher.DeriveKey` applies a `hash` parameter to `CString(password)`. `SBoxes.GenerateSingleSbox` and `SBoxes.GenerateSboxes` take the resulting 32-byte key.
- `ecb_encrypt` and `ecb_decrypt` are left out because they call OpenSSL's DES.
- `malloc` failures that lead to `exit(1)`, the `free` calls, the leaked buffers and the `memset` that clears the key are left out. None of them changes a result.
- The scratch buffer of `round_robin_shuffle` is uninitialised in C. It is modelled as zeros. `Shuffle.ShuffleUnique` shows that its contents never reach the output when the size is a power of two.
- Shuffle.RoundRobinShuffle requires the size to be a power of two. On other sizes two elements can share a slot and uninitialised bytes can show through. The only call uses 4096.
- `NUMBER_OF_BYTES_IN_ALL_S_BOXES` is not defined in `implementation.h`. The model takes it as 16 * 256 = 4096.
- Cipher.Decrypt requires a positive multiple of 8 bytes. On other lengths the source reads past the end of the ciphertext or before the start of the buffer.
- Padding.RemovePadding requires the strip length to fit in the input. Otherwise `padded_length - padding_bytes` wraps and the copy overruns. Inputs of at least one block always meet this (`Padding.StripLengthFits`).
- Cipher.CString takes all of a sequence that holds no zero byte. In C, `strlen` would read past the end of such a buffer.
- SBoxes.GenerateSboxes: a single round table is not a permutation of 0 .. 255 (`SBoxes.FirstTableNotPermutation`). The model proves only that the sixteen tables together hold sixteen copies of each byte (`SBoxes.TablesHoldSixteenCopies`).
