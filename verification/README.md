# RC5 and RC6 cipher engine, 64-bit words

A Dafny model of `rc6.c`, a single-block RC5 and RC6 engine, in the
configuration it is compiled for: `WORD_SZ = 64`. It has three layers,
one to three modules each.

- `Words` (words.dfy): the 64-bit word and its arithmetic. A word is an
  integer in [0, 2^64) rather than a `bv64`, because the solver cannot
  afford bit-vector arithmetic in proofs of this size. Wrap-around is
  written out as `% 2^64`. Shifts and rotations are defined
  arithmetically and proved equal to their closed forms. The 64-bit
  product is computed by shift-and-add and proved equal to x*y modulo
  2^64. Exclusive or is defined bit by bit and proved to give each bit as
  the exclusive or of the argument bits, and to be an involution. The
  module also holds the constants `P`, `Q` and `LGW`.
- `ByteOrder` (byteorder.dfy): bytes, little-endian words, `bswap` and
  `bswap_if_be`. The host byte order is a parameter (`Endian`).
- `Rc5` and `Rc6` (rc5.dfy, rc6.dfy): the block transforms. Both import
  `RoundCount` (rounds.dfy), which defines the rounds actually run,
  4*(r/4).
  - A pure specification: `Round`/`Unround`, `EncRounds`/`DecRounds`,
    `Encrypt`/`Decrypt`, and the wire-level `EncryptWire`/`DecryptWire`.
  - Methods that follow the C statement by statement, with the pointer
    cursor `S++`/`S--` as an index. The methods are proved to compute the
    specification.
  - The round trip, proved for every table of the right length when the
    round count is a multiple of four.
- `KeySchedule` (keyschedule.dfy): `setup`, `rc5_setup` and `rc6_setup`.
  - It covers parameter validation, loading the key into little-endian
    words `L`, filling `S` with `P + i*Q`, and the `3*max(|L|,|S|)`
    mixing loop.
  - Both the specification (`Setup`) and C-shaped methods are given.
  - Accepted parameters make the table that the transforms invert.

The C functions work on memory: the caller's table, the plaintext and
ciphertext buffers, and the uninitialized local array `L`. The model works
on sequences instead:
- The caller's table is a `seq<Word>`. Setup returns the updated table.
- A block travels as a `seq<byte>` of 16 (RC5) or 32 (RC6) bytes.
- The prior contents of `L` are a parameter (`junk`). The result is proved
  not to depend on them.

The test driver calls every transform in place, with the plaintext and
ciphertext in one buffer (main.c:38, 40, 58, 60). Taking the input block
as a value and returning the output is faithful there. Each transform
reads all its input words before it writes any output word:
- rc5_encrypt: rc6.c:130-131 read, rc6.c:138-139 write.
- rc5_decrypt: rc6.c:145-146 read, rc6.c:153-154 write.
- rc6_encrypt: rc6.c:160-163 read, rc6.c:173-176 write.
- rc6_decrypt: rc6.c:182-185 read, rc6.c:195-198 write.

## Model

| member | source | states |
|---|---|---|
| Words.Max | rc6.c:87 | max returns the larger of its two arguments: at least both, and equal to one of them |
| Words.Add | rc6.c:134 | definition, no ensures: (x + y) mod 2^64, the uint64 `+`; SubAdd and AddSub show Sub undoes it |
| Words.Sub | rc6.c:149 | definition, no ensures: (x - y) mod 2^64 with a non-negative remainder, the uint64 `-`; AddSub and SubAdd show it undoes Add |
| Words.Mul | rc6.c:166 | definition, no ensures: the 64-bit product by shift-and-add over the bits of y; MulValue proves it equals x*y mod 2^64 |
| Words.MulValue | rc6.c:166-167 | the 64-bit product used by RC6's f, computed by shift-and-add, is x*y modulo 2^64 |
| Words.Shl | rc6.c:88-89 | definition, no ensures: x << s as s one-bit shifts, each dropping bit 63; ShlValue gives the closed form x*2^s mod 2^64 |
| Words.Shr | rc6.c:88-89 | definition, no ensures: x >> s as s one-bit shifts, each dropping bit 0; ShrValue gives the closed form x / 2^s |
| Words.ShlValue | rc6.c:88-89 | x << s for s <= 64 is x*2^s modulo 2^64 |
| Words.ShrValue | rc6.c:88-89 | x >> s for s <= 64 is x / 2^s |
| Words.RotL | rc6.c:88 | definition, no ensures: (x << d) + (x >> (64-d)) mod 2^64 for d < 64; the sum equals C's bitwise or because ShiftSplit shows it is the high and low pieces of x swapped; ShlValue and ShrValue fix the parts, RotRRotL and RotLRotR pair it with RotR |
| Words.RotR | rc6.c:89 | definition, no ensures: (x >> d) + (x << (64-d)) mod 2^64 for d < 64; RotRRotL and RotLRotR show it inverts RotL, RotRZero covers d = 0 |
| Words.RotRRotL | rc6.c:88-89 | for 0 <= d < 64, rotr(rotl(x, d), d) == x |
| Words.RotLRotR | rc6.c:88-89 | for 0 <= d < 64, rotl(rotr(x, d), d) == x |
| Words.RotLZero | rc6.c:88 | rotl by 0 is the identity: the full-width right shift it contains contributes nothing |
| Words.RotRZero | rc6.c:89 | rotr by 0 is the identity, likewise |
| Words.Amt | rc6.c:134-135 | a rotation amount taken as x % WORD_SZ is below 64, so every rotl/rotr of the transforms is in range |
| Words.AddSub | rc6.c:149-150 | subtracting a table word undoes adding it: (x + k) - k == x modulo 2^64 |
| Words.SubAdd | rc6.c:134-135 | adding a table word undoes subtracting it: (x - k) + k == x modulo 2^64 |
| Words.Xor | rc6.c:134 | definition, no ensures: the exclusive or of the 64 low bits, built bit by bit; XorBit proves every bit is the exclusive or of the argument bits, XorInvolution that it is self-inverse |
| Words.XorInvolution | rc6.c:149-150 | exclusive or with the same word twice gives back the original word |
| Words.XorBitsBit | rc6.c:134-135 | each of the low n bits of the bitwise exclusive or is the exclusive or of the two argument bits |
| Words.XorBit | rc6.c:134-135 | every bit of x ^ y on 64-bit words is the exclusive or of the corresponding bits of x and y |
| ByteOrder.FromLEToLE | rc6.c:104-105 | reading back the n little-endian bytes of x < 256^n gives x |
| ByteOrder.ToLEFromLE | rc6.c:104-105 | writing out the little-endian number of a byte string gives the byte string |
| ByteOrder.WordOf | rc6.c:104-105 | the word read from eight bytes has exactly those bytes as its little-endian bytes |
| ByteOrder.BytesOf | rc6.c:138-139 | the eight little-endian bytes of a word read back as that word |
| ByteOrder.BSwap | rc6.c:73 | bswap's bytes are the bytes of its argument in reverse order |
| ByteOrder.BSwapInvolution | rc6.c:73 | bswap(bswap(x)) == x |
| ByteOrder.Load | rc6.c:130 | definition, no ensures: the word a host of the given byte order reads from eight bytes of memory; LoadLE pairs it with BSwapIfBE |
| ByteOrder.Store | rc6.c:138 | definition, ensures only the length: the eight bytes a host writes for a word; StoreLE pairs it with BSwapIfBE |
| ByteOrder.BSwapIfBE | rc6.c:90-93 | definition, no ensures: the identity on a little-endian host, BSwap on a big-endian one; LoadLE and StoreLE prove load-then-swap and swap-then-store are the little-endian reading and writing on both hosts |
| ByteOrder.LoadLE | rc6.c:90-93 | a word loaded from memory and passed through bswap_if_be is the little-endian reading of its bytes, on either host |
| ByteOrder.StoreLE | rc6.c:90-93 | a word passed through bswap_if_be and stored writes its little-endian bytes, on either host |
| RoundCount.Rounds | rc6.c:132-133 | definition, no ensures: the rounds the nested loops run, 4*(r/4), shared by both ciphers; EncryptLoops and DecryptLoops show the C loops run that many |
| Rc5.Round | rc6.c:134-135 | definition, no ensures: A = rotl(A^B, B mod 64) + k0, then B = rotl(B^A, A mod 64) + k1 with the new A; UnroundRound shows Unround undoes it |
| Rc5.Unround | rc6.c:149-150 | definition, no ensures: B = rotr(B - k1, A mod 64)^A, then A = rotr(A - k0, B mod 64)^B with the new B; RoundUnround shows Round undoes it |
| Rc5.EncRounds | rc6.c:132-137 | definition, no ensures: n rounds, round m keyed by S[lo+2m] and S[lo+2m+1]; DecEncRounds and EncDecRounds pair it with DecRounds, EncryptLoops shows the C loops compute it |
| Rc5.DecRounds | rc6.c:147-152 | definition, no ensures: rounds n-1 down to 0 undone with the same table words; DecEncRounds and EncDecRounds pair it with EncRounds, DecryptLoops shows the C loops compute it |
| Rc5.Encrypt | rc6.c:127-140 | definition, no ensures: whitening with S[0], S[1], then 4*(r/4) rounds keyed from S[2] up; DecryptEncrypt shows Decrypt undoes it, EncryptBlock that the C statements compute it |
| Rc5.Decrypt | rc6.c:142-155 | definition, no ensures: 4*(r/4) rounds undone from S[2r+1] down, then unwhitening with the next two words down; EncryptDecrypt shows Encrypt undoes it, DecryptBlock that the C statements compute it |
| Rc5.FromWire | rc6.c:130-131 | definition, no ensures: the block's two words read little-endian from consecutive groups of eight bytes; WireRoundTrip pairs it with ToWire |
| Rc5.ToWire | rc6.c:138-139 | definition, ensures only the length: the two words written little-endian one after another; WireRoundTrip pairs it with FromWire |
| Rc5.EncryptWire | rc6.c:127-140 | definition, ensures only the length: Encrypt on the block's two little-endian words, written back little-endian; Rc5Encrypt shows rc5_encrypt computes it on both hosts, DecryptEncryptWire that DecryptWire undoes it |
| Rc5.DecryptWire | rc6.c:142-155 | definition, ensures only the length: Decrypt on the block's little-endian words; Rc5Decrypt shows rc5_decrypt computes it on both hosts |
| Rc5.UnroundRound | rc6.c:149-150 | one decryption round undoes one encryption round with the same two table words |
| Rc5.RoundUnround | rc6.c:134-135 | one encryption round undoes one decryption round with the same two table words |
| Rc5.DecEncRounds | rc6.c:147-152 | decrypting n rounds undoes encrypting n rounds over the same table words |
| Rc5.EncDecRounds | rc6.c:132-137 | encrypting n rounds undoes decrypting n rounds over the same table words |
| Rc5.EncryptFewRounds | rc6.c:130-139 | with r < 4 the loops do not run and encryption is (A + S[0], B + S[1]) |
| Rc5.DecryptFewRounds | rc6.c:144-154 | with r < 4 decryption is (A - S[2r], B - S[2r+1]) |
| Rc5.NoRoundTripOffMultiple | rc6.c:130-154 | for every r in 1..3 there is a table and block that rc5_decrypt does not recover from rc5_encrypt's output |
| Rc5.DecryptEncrypt | rc6.c:127-155 | for r a multiple of 4 and any table of at least 2r+2 words, decrypting an encrypted block gives it back |
| Rc5.EncryptDecrypt | rc6.c:127-155 | likewise, encrypting a decrypted block gives it back |
| Rc5.WireRoundTrip | rc6.c:130-139 | the two little-endian words of a 16-byte block and the block's bytes determine each other |
| Rc5.DecryptEncryptWire | rc6.c:127-155 | the round trip on 16-byte blocks |
| Rc5.EncryptRound | rc6.c:134-135 | the two statements of the inner loop take the registers from k rounds to k+1 and move the cursor past two table words |
| Rc5.EncryptPass | rc6.c:133-136 | the inner loop adds four rounds and advances the cursor by eight words |
| Rc5.EncryptLoops | rc6.c:132-137 | the nested loops run 4*(r/4) rounds with the cursor ending at 2 + 2*(4*(r/4)) |
| Rc5.DecryptRound | rc6.c:149-150 | the two statements of the inner loop undo one round and move the cursor down two words |
| Rc5.DecryptPass | rc6.c:148-151 | the inner loop undoes four rounds |
| Rc5.DecryptLoops | rc6.c:147-152 | from S[2r+1] the loops undo 4*(r/4) rounds and leave the cursor on the word that unwhitens B |
| Rc5.LoadBlock | rc6.c:130-131 | the registers loaded through bswap_if_be hold the block's little-endian words on either host |
| Rc5.StoreBlock | rc6.c:138-139 | the registers stored through bswap_if_be write the block's little-endian bytes on either host |
| Rc5.EncryptBlock | rc6.c:130-137 | whitening then the loops compute Encrypt |
| Rc5.DecryptBlock | rc6.c:145-154 | the loops then unwhitening compute Decrypt |
| Rc5.Rc5Encrypt | rc6.c:127-140 | rc5_encrypt produces the same ciphertext bytes on either host, namely EncryptWire |
| Rc5.Rc5Decrypt | rc6.c:142-155 | rc5_decrypt produces the same plaintext bytes on either host, namely DecryptWire |
| Rc6.F | rc6.c:166-167 | definition, no ensures: rotl(x * (2x+1), 6) on 64-bit words; MulValue fixes the product, and UnroundRound needs of F only that it is recomputed from the same B and D |
| Rc6.Round | rc6.c:166-170 | definition, no ensures: t = f(B), u = f(D), A = rotl(A^t, u mod 64) + k0, C = rotl(C^u, t mod 64) + k1, then (A,B,C,D) = (B,C,D,A); UnroundRound shows Unround undoes it |
| Rc6.Unround | rc6.c:188-192 | definition, no ensures: shift back to (D,A,B,C), recompute u and t, C = rotr(C - k1, t mod 64)^u, A = rotr(A - k0, u mod 64)^t; RoundUnround shows Round undoes it |
| Rc6.EncRounds | rc6.c:164-172 | definition, no ensures: n rounds, round m keyed by S[lo+2m] and S[lo+2m+1]; DecEncRounds and EncDecRounds pair it with DecRounds, EncryptLoops shows the C loops compute it |
| Rc6.DecRounds | rc6.c:186-194 | definition, no ensures: rounds n-1 down to 0 undone with the same table words; DecEncRounds and EncDecRounds pair it with EncRounds, DecryptLoops shows the C loops compute it |
| Rc6.Encrypt | rc6.c:157-177 | definition, no ensures: B and D whitened with S[0], S[1], 4*(r/4) rounds from S[2], then A and C whitened with the next two words; DecryptEncrypt shows Decrypt undoes it, EncryptBlock that the C statements compute it |
| Rc6.Decrypt | rc6.c:179-199 | definition, no ensures: C unwhitened with S[2r+3] and A with S[2r+2], rounds undone downwards, then B and D unwhitened; EncryptDecrypt shows Encrypt undoes it, DecryptBlock that the C statements compute it |
| Rc6.FromWire | rc6.c:160-163 | definition, no ensures: the block's four words read little-endian from consecutive groups of eight bytes; WireRoundTrip pairs it with ToWire |
| Rc6.ToWire | rc6.c:173-176 | definition, ensures only the length: the four words written little-endian one after another; WireRoundTrip pairs it with FromWire |
| Rc6.EncryptWire | rc6.c:157-177 | definition, ensures only the length: Encrypt on the block's four little-endian words, written back little-endian; Rc6Encrypt shows rc6_encrypt computes it on both hosts, DecryptEncryptWire that DecryptWire undoes it |
| Rc6.DecryptWire | rc6.c:179-199 | definition, ensures only the length: Decrypt on the block's little-endian words; Rc6Decrypt shows rc6_decrypt computes it on both hosts |
| Rc6.UnroundRound | rc6.c:188-192 | one decryption round undoes one encryption round: t and u are recomputed from the unchanged B and D, so f is never inverted |
| Rc6.RoundUnround | rc6.c:166-170 | one encryption round undoes one decryption round |
| Rc6.DecEncRounds | rc6.c:186-194 | decrypting n rounds undoes encrypting n rounds over the same table words |
| Rc6.EncDecRounds | rc6.c:164-172 | encrypting n rounds undoes decrypting n rounds |
| Rc6.EncryptFewRounds | rc6.c:160-176 | with r < 4 encryption is (A + S[2], B + S[0], C + S[3], D + S[1]) |
| Rc6.DecryptFewRounds | rc6.c:182-198 | with r < 4 decryption is (A - S[2r+2], B - S[2r], C - S[2r+3], D - S[2r+1]) |
| Rc6.NoRoundTripOffMultiple | rc6.c:160-198 | for every r in 1..3 there is a table and block that rc6_decrypt does not recover from rc6_encrypt's output |
| Rc6.DecryptEncrypt | rc6.c:157-199 | for r a multiple of 4 and any table of at least 2r+4 words, decrypting an encrypted block gives it back |
| Rc6.EncryptDecrypt | rc6.c:157-199 | likewise, encrypting a decrypted block gives it back |
| Rc6.WireRoundTrip | rc6.c:160-176 | the four little-endian words of a 32-byte block and the block's bytes determine each other |
| Rc6.DecryptEncryptWire | rc6.c:157-199 | the round trip on 32-byte blocks |
| Rc6.EncryptRound | rc6.c:166-170 | the inner loop's body takes the registers from k rounds to k+1, including the word rotation (A,B,C,D) := (B,C,D,A) |
| Rc6.EncryptPass | rc6.c:165-171 | the inner loop adds four rounds and advances the cursor by eight words |
| Rc6.EncryptLoops | rc6.c:164-172 | the nested loops run 4*(r/4) rounds with the cursor ending on the first post-whitening word |
| Rc6.DecryptRound | rc6.c:188-192 | the inner loop's body undoes one round and moves the cursor down two words |
| Rc6.DecryptPass | rc6.c:187-193 | the inner loop undoes four rounds |
| Rc6.DecryptLoops | rc6.c:186-194 | the loops undo 4*(r/4) rounds and leave the cursor on the word that unwhitens D |
| Rc6.LoadBlock | rc6.c:160-163 | the four registers loaded through bswap_if_be hold the block's little-endian words on either host |
| Rc6.StoreBlock | rc6.c:173-176 | the four registers stored through bswap_if_be write the block's little-endian bytes on either host |
| Rc6.EncryptBlock | rc6.c:160-176 | pre-whitening, the loops and post-whitening compute Encrypt |
| Rc6.DecryptBlock | rc6.c:182-198 | undoing post-whitening, the loops and undoing pre-whitening compute Decrypt |
| Rc6.Rc6Encrypt | rc6.c:157-177 | rc6_encrypt produces the same ciphertext bytes on either host, namely EncryptWire |
| Rc6.Rc6Decrypt | rc6.c:179-199 | rc6_decrypt produces the same plaintext bytes on either host, namely DecryptWire |
| KeySchedule.ValidParams | rc6.c:97 | definition, no ensures: w = 64, b in 0..255, r in 0..255 and r mod 4 = 0; Setup and SetupHost return OK exactly when it holds |
| KeySchedule.LWords | rc6.c:101 | definition, no ensures: max(1, (b+7)/8); LWordsBounds pins it to the number of words that hold b bytes |
| KeySchedule.PadKey | rc6.c:103-104 | definition, ensures only the length: the b key bytes followed by zeros up to 8*L_words bytes; KeyWordsBytes and CopyKey show L holds exactly these bytes |
| KeySchedule.KeyWords | rc6.c:100-105 | definition, ensures only the length: word i is bytes 8i..8i+7 of the zero-padded key, read little-endian; KeyWordsBytes checks it against the independent WordsBytes, LoadKey that the C statements compute it |
| KeySchedule.Fill | rc6.c:107-108 | definition, ensures only the length: S[0] = P and S[i] = S[i-1] + Q; FillValue gives the closed form P + i*Q mod 2^64 |
| KeySchedule.Wrap | rc6.c:111-112 | definition, no ensures: a cursor equal to the array length restarts at 0; MixIndex shows iteration k then uses index k mod the length |
| KeySchedule.MixStep | rc6.c:111-114 | definition, ensures only the cursor bounds and lengths: wrap i and j, A = S[i] = rotl(S[i]+A+B, 3), B = L[j] = rotl(L[j]+A+B, (A+B) mod 64), advance; MixWrites states which two words change, MixOnce that the C loop body computes it |
| KeySchedule.MixCount | rc6.c:110 | definition, no ensures: 3*max(L_words, S_words) iterations; MixKey runs exactly that many, MixCoversTable shows that each of the three sweeps reaches every index of S within that count |
| KeySchedule.LWordsBounds | rc6.c:100-101 | L_words is between 1 and 32, so L fits the 256/sizeof(WORD) array; its words hold all b key bytes, and no word is wholly past the key unless the key is empty |
| KeySchedule.KeyWordsBytes | rc6.c:102-105 | the bytes of the key words are the b key bytes followed by zeros to the end of the last word |
| KeySchedule.KeyWordsEmpty | rc6.c:101-103 | an empty key gives L = [0] |
| KeySchedule.KeyWordsPrefix | rc6.c:104 | L depends only on the first b bytes of the key |
| KeySchedule.KeyWordsTrailingZero | rc6.c:103-104 | a key ending in a zero byte gives the same L as the key without it when the word count is unchanged |
| KeySchedule.FillValue | rc6.c:107-108 | after the fill, S[i] == P + i*Q modulo 2^64 |
| KeySchedule.Mix | rc6.c:110-114 | after any number of iterations the cursors i and j are within S and L, so every access of the loop is in bounds, and the lengths of S and L are unchanged |
| KeySchedule.MixIndex | rc6.c:110-112 | iteration k uses S[k mod S_words] and L[k mod L_words]: the cursors cycle |
| KeySchedule.MixWrites | rc6.c:113-114 | iteration k writes A into S[k mod S_words] and B into L[k mod L_words] and leaves every other word alone |
| KeySchedule.MixCoversTable | rc6.c:110-112 | every word of S is rewritten in each of the three sweeps, all before the loop ends |
| KeySchedule.Setup | rc6.c:95-118 | the status is -1 exactly when w != 64, b is outside 0..255, r is outside 0..255 or r % 4 != 0, and then S is untouched; otherwise it is 0 and only the first S_words words change |
| KeySchedule.SetupTrailingZero | rc6.c:100-118 | setup gives the same table for a key and that key with a trailing zero byte within the same last word |
| KeySchedule.CopyKey | rc6.c:103-104 | after zeroing the last key word and copying the key, L's bytes are the padded key, whatever L held before |
| KeySchedule.NormalizeWords | rc6.c:105 | after the bswap_if_be pass, word i of L is the little-endian reading of bytes 8i..8i+7, on either host |
| KeySchedule.LoadKey | rc6.c:100-105 | key loading gives the key words on either host, independent of L's prior contents |
| KeySchedule.FillTable | rc6.c:107-108 | the fill loop produces S[i] == P + i*Q modulo 2^64 for every i < S_words |
| KeySchedule.MixOnce | rc6.c:111-114 | the loop body takes the state after k iterations to the state after k+1 |
| KeySchedule.MixKey | rc6.c:110-115 | the loop runs exactly 3*max(L_words, S_words) iterations of the mixing step |
| KeySchedule.SetupHost | rc6.c:95-118 | setup returns 0 exactly for valid parameters, and its table is the same on either host and for any prior contents of L |
| KeySchedule.Rc5Words | rc6.c:121 | definition, no ensures: rc5_setup asks setup for 2r+2 table words; Rc5Setup shows rc5_setup is Setup with this count, and on success the buffer has room for all of them |
| KeySchedule.Rc6Words | rc6.c:124 | definition, no ensures: rc6_setup asks setup for 2r+4 table words; Rc6Setup shows rc6_setup is Setup with this count, and on success the buffer has room for all of them |
| KeySchedule.Rc5SetupRoundTrip | rc6.c:120-122 | a table accepted by rc5_setup makes RC5 decryption undo encryption for every 16-byte block |
| KeySchedule.Rc6SetupRoundTrip | rc6.c:123-125 | a table accepted by rc6_setup makes RC6 decryption undo encryption for every 32-byte block |
| KeySchedule.Rc5Setup | rc6.c:120-122 | rc5_setup schedules 2r+2 words; on success the buffer holds them and RC5 round-trips every block |
| KeySchedule.Rc6Setup | rc6.c:123-125 | rc6_setup schedules 2r+4 words; on success the buffer holds them and RC6 round-trips every block |

## Left out

- The other word widths (8, 16, 32 and 128 bits) and the `#error` branch (rc6.c:53-85). The model fixes `WORD_SZ = 64`, the compiled value (rc6.c:50). Setup's `w` check compares against 64.
- The unused `w` argument of the four transforms. It carries no behaviour.
- The union type-punning probe inside `bswap_if_be` (rc6.c:91-92). The host byte order is an explicit `Endian` parameter instead, and every result is proved the same for both orders.
- Pointer casts, alignment and `void *` buffers. Tables are `seq<Word>` and blocks are byte sequences of the exact length. Buffers too short for the C code are excluded by `requires` on the table length (at least 2r+2 or 2r+4 words) and on the key length (at least b bytes).
- Negative round counts passed to the transforms. The transforms take `r` as a natural number, because the header requires callers to pass r in 0..255 (rc6.c:40). In C a negative r is not always undefined. rc5_encrypt and rc6_encrypt run no loop and only whiten the block. rc5_decrypt reads S[2r] and S[2r+1], so with r = -1 it reads S[-1] at rc6.c:153 and S[-2] at rc6.c:154. rc6_decrypt with r = -1 starts its cursor at S[1], inside the table, and reads outside it only at the final unwhitening: S[-1] at rc6.c:195 and S[-2] at rc6.c:197.
- Rotation by 0. In C, `rotl(x, 0)` shifts right by 64 and `rotr(x, 0)` shifts left by 64, which the C standard leaves undefined. The model gives a full-width shift the value 0, so rotating by 0 is the identity that the cipher and the mixing loop intend (`Words.RotLZero`, `Words.RotRZero`).
- Round counts that are not a multiple of four. The round trips are proved for r % 4 == 0, the condition the source's header demands of callers and setup enforces. For other r the transforms are modelled as written: 4*(r/4) rounds, with decryption starting at S[2r+1] (RC5) or S[2r+3] (RC6), so they do not invert each other. `Rc5.NoRoundTripOffMultiple` and `Rc6.NoRoundTripOffMultiple` prove this for a concrete table and every r in 1..3.
- `main.c`, the test-vector printer, is not part of this model. No ciphertexts are recorded for it.
- Security properties and timing behaviour.
