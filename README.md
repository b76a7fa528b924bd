# XORCryptor in Dafny

A model of the byte ciphers of XORCryptor, and of the code that feeds files
through them, with proofs about the model. The repository holds several
generations of one cipher. All of them are modelled here:

- **Table cipher** (`xor_cryptor.cpp` and its Java port `Java/XORCryptor.java`).
  - Every key byte is replaced by a mask built from its popcount.
  - A 256-entry table substitutes each byte, one bit per 2-bit group.
  - Pairs of bytes are interleaved by nibble, and everything is XORed with the rotating masks.
- **Lite cipher** (`xor_cryptor_lite.cpp`). Each byte is XORed with the mask of the key byte at its position.
- **Random-pad schemes** (`C++/xor-cryptor.hpp`, `C++/xor-cryptor.cpp`, `Java/com/beesechurger/shank03/XORCryptor.java`, `Nodejs/lib/xor-crypt.ts`, `Nodejs/dist/xor-crypt.js`).
  - Each unit `t` becomes the pair `(t ^ key ^ c, c)` for a random pad `c`.
  - Each scheme has its own input checks.
- **Nibble-tree codec** (`xor_cryptor.hpp` and its callback-free twin `C++/xor_cryptor.hpp`).
  - Bytes are grouped by high nibble.
  - A header of minimal big-endian sizes comes first, then the key-XORed link streams, then an exception list.
- **Chunking and ordered write-back.** The chunk arithmetic and buffer pool, the queued-flag array and in-order writer loop, and the batch writer:
  - `cli.hpp`;
  - the FileManager part of `xor_cryptor.cpp`;
  - `file_manager.cpp`;
  - `src/file_handler.rs`.
  Each is modelled as a class whose "queue a chunk" and "writer step" methods are separate. That way any interleaving of them can be stated.
- **Naming, filtering and partition rules.**
  - The destination-name rules of `src/job.rs` and `src/main.rs`.
  - The extension filters and mode checks of `cli.hpp` and `src/cli.rs`.
  - The command-flag scan of `cli.hpp`.
  - The round-robin split of files across jobs in `src/cli.rs`.

Main results proved:

- **Round trips.** Decryption undoes encryption for:
  - every cipher generation (table cipher in C++ and Java, lite cipher, every pad scheme);
  - the nibble-tree codec.
  The destination-name rules round-trip as well.
- **Tables.** The two substitution tables are mutual inverses.
- **Write-back.** The written output is the chunks concatenated in index order, whatever order they were queued in.
- **Input checks.** Each scheme's error conditions are stated in the source's own order.

Every loop of the source is a `method` with a `while` or `for` loop, with
one exception: the breadth-first queue of `recursive_itr_dirs` in
`src/cli.rs`, whose visiting order is replaced by an input walk sequence
(see "Left out"). The entry loop over what that walk finds is a loop. Each
method's `ensures` ties the result, or the new array contents, to a
specification function, and the properties are proved as lemmas about
those functions.

How numbers and inputs are modelled:

- Bytes are the subtype `byte` of `int` (0..255).
- XOR (`Bits.Xor`) and OR (`Bits.Or`) are defined bit by bit on naturals.
- `uint64_t` wrap-around is written out where the source relies on it (`NibbleDecoder.Add64`).
- Random pads are input sequences.
- Filesystem queries (directory kinds and listings) are inputs, and so is `absolutize` in `src/cli.rs`: a function from a path to the absolute path it names.
- Thread interleavings are sequences of method calls.

## Model

| member | source | states |
|---|---|---|
| XorCryptor.PopcountByte | xor_cryptor.cpp:29-33 | the popcount loop counts at most 8 set bits, so `8 - mask` in the fold cannot wrap |
| XorCryptor.GenerateMask | xor_cryptor.cpp:28-37 | the popcount loop and the nibble fold return `KeyMask(v)`: `v` XORed with `17 x`, both nibbles `x`, where `x = popcount(v) ^ (8 - popcount(v))` |
| XorCryptor.FoldPad | xor_cryptor.cpp:34-35 | OR-ing `(8-p) << 4` into the mask, then XORing it with its nibble swap cut to a byte, gives the pad `17 * (p ^ (8 - p))`, whose two nibbles are equal |
| XorCryptor.KeyMaskPad | xor_cryptor.cpp:34-36 | the mask changes the high and the low nibble of the key byte by the same four bits (equal pad nibbles), and XORing the pad back gives the key byte |
| XorCryptor.KeyMasks | xor_cryptor.cpp:40 | the mask array has the key's length and entry `i` is the mask of key byte `i` |
| XorCryptor.ClassifyByte | xor_cryptor.cpp:44-52 | the inner loop over the four 2-bit groups accumulates `mask` and `mode` and joins them as `16 * mask + mode`, the substitution `Classify(v)` |
| XorCryptor.ClassifyGroups | xor_cryptor.cpp:45-52 | bit `4+g` of the substituted byte is set iff 2-bit group `g` is greater than 1, bit `g` iff group `g` is 0 or 3 |
| XorCryptor.UnclassifyClassify | xor_cryptor.cpp:42-55 | the substitution has a left inverse: regrouping the high and low bits gives the byte back |
| XorCryptor.ClassifyUnclassify | xor_cryptor.cpp:42-55 | the substitution is onto: every byte is the substitution of its regrouping |
| XorCryptor.ClassifyInjective | xor_cryptor.cpp:53 | no two bytes share a substituted value, so the decrypt-direction table writes each entry once |
| XorCryptor.EncodeTable | xor_cryptor.cpp:53 | the encrypt-direction table has 256 entries (entry `i` is the substitution of `i`) |
| XorCryptor.DecodeTable | xor_cryptor.cpp:53 | the decrypt-direction table has 256 entries (entry `Classify(i)` is `i`) |
| XorCryptor.TablesInverse | xor_cryptor.cpp:42-55 | the decrypt-direction table inverts the encrypt-direction table and vice versa, on every byte |
| XorCryptor.Cryptor.constructor | xor_cryptor.cpp:114 | a fresh 256-entry `_table` |
| XorCryptor.Cryptor.GenerateCipherBytes | xor_cryptor.cpp:39-56 | every key byte is replaced by its mask, and the table is the encrypt- or decrypt-direction table as `to_encrypt` asks |
| XorCryptor.Cryptor.FillEncodeTable | xor_cryptor.cpp:43-55 | with `to_encrypt` the table loop leaves `_table[i] = Classify(i)` for all 256 entries |
| XorCryptor.Cryptor.FillDecodeTable | xor_cryptor.cpp:43-55 | without `to_encrypt` the table loop leaves `_table[Classify(i)] = i` for all 256 entries |
| XorCryptor.KeyStream | xor_cryptor.cpp:67-68 | position `i` of a buffer of length `n` uses key mask `i % k_len` |
| XorCryptor.Encrypt | xor_cryptor.cpp:58-80 | encryption keeps the length |
| XorCryptor.Decrypt | xor_cryptor.cpp:82-104 | decryption keeps the length |
| XorCryptor.EncryptPairStep | xor_cryptor.cpp:62-69 | the odd step turns the pair `(2j, 2j+1)` into `(16 hi(t1) + hi(t0)) ^ m[2j]` and `((16 lo(t1) + lo(t0)) ^ high-nibble byte) ^ m[2j+1]` |
| XorCryptor.EncryptTailStep | xor_cryptor.cpp:75-79 | for odd length the last byte becomes `(16 hi(t) + (lo(t) ^ hi(t))) ^ m[n-1]` |
| XorCryptor.Cryptor.EncryptBytes | xor_cryptor.cpp:58-80 | the in-place loop leaves exactly `Encrypt(old buffer, masks repeated, table)`; an empty buffer needs no key |
| XorCryptor.Cryptor.EncryptPair | xor_cryptor.cpp:62-69 | one odd step stores the two encrypted bytes at `i-1` and `i` and changes no other byte |
| XorCryptor.Cryptor.EncryptLast | xor_cryptor.cpp:75-79 | the tail step stores the folded last byte and changes no other byte |
| XorCryptor.DecryptPairStep | xor_cryptor.cpp:94-101 | unmasking a pair and XORing the two bytes gives the table index of the first decrypted byte |
| XorCryptor.DecryptTailStep | xor_cryptor.cpp:88-93 | the odd last byte's nibbles, unmixed, index the decrypted byte |
| XorCryptor.TailIndex | xor_cryptor.cpp:89-93 | `16 hi(mask) + (lo(mask) ^ hi(mask))` is the index the tail decryption looks up |
| XorCryptor.SecondIndexShifted | xor_cryptor.cpp:100-101 | after `mask >>= 4, mode >>= 4` the index is the one of the second byte of the pair |
| XorCryptor.Cryptor.DecryptBytes | xor_cryptor.cpp:82-104 | the in-place loop leaves exactly `Decrypt(old buffer, masks repeated, table)`; the write index `k` never passes the read index and ends at the length; an empty buffer needs no key |
| XorCryptor.Cryptor.DecryptPair | xor_cryptor.cpp:94-101 | one pair step stores both decrypted bytes at `k` and `k+1` and changes no other byte |
| XorCryptor.Cryptor.DecryptLast | xor_cryptor.cpp:88-93 | the tail step stores the decrypted last byte and changes no other byte |
| XorCryptor.PairIndices | xor_cryptor.cpp:67-101 | unmasking an encrypted pair with the same two masks recovers both substituted values |
| XorCryptor.OddIndexFold | xor_cryptor.cpp:75-93 | unmasking a folded last byte recovers its substituted value |
| XorCryptor.RoundTripFirst | xor_cryptor.cpp:58-104 | decryption restores the first byte of every encrypted pair |
| XorCryptor.RoundTripSecond | xor_cryptor.cpp:58-104 | decryption restores the second byte of every encrypted pair |
| XorCryptor.RoundTripLast | xor_cryptor.cpp:58-104 | decryption restores the unpaired last byte of an odd-length buffer |
| XorCryptor.RoundTripWith | xor_cryptor.cpp:58-104 | for any decrypt table that inverts the encrypt table and any key stream, decryption undoes encryption at every length |
| XorCryptor.RoundTrip | xor_cryptor.cpp:39-104 | with the decode table and the same key masks, decryption restores every buffer of every length (0, 1, odd, even) |
| XorCryptor.EncryptOf | xor_cryptor.cpp:58-80 | a buffer that matches the encryption rule at every position is the encryption |
| XorCryptor.DecryptOf | xor_cryptor.cpp:82-104 | a buffer that matches the decryption rule at every position is the decryption |
| XorCryptorLite.Processed | xor_cryptor_lite.cpp:40-48 | the transform keeps the length |
| XorCryptorLite.ProcessedInvolution | xor_cryptor_lite.cpp:40-48 | applying the transform twice with the same key restores the input, so `decrypt_string` undoes `encrypt_string` (also lines 102-133) |
| XorCryptorLite.ProcessBytes | xor_cryptor_lite.cpp:40-48 | in place, byte `i` is XORed with the mask of key byte `(i - start) % c_len`; `key_idx` resets when it reaches `c_len`; `*itr` ends at the length; the routine needs a non-empty key exactly when it processes a byte |
| XorCryptorLite.ProcessedOf | xor_cryptor_lite.cpp:43-47 | a buffer that matches the per-byte XOR rule everywhere is the transform |
| XorCryptorLite.ProcessString | xor_cryptor_lite.cpp:102-133 | exactly the transformed string is appended after what `*dest` held |
| JavaXorCryptor.JavaFold | Java/XORCryptor.java:26-27 | the Java fold of the mask with its nibble swap, masked with `0xF0` on `int`, gives the same pad as the C++ byte fold |
| JavaXorCryptor.JavaMaskIsKeyMask | Java/XORCryptor.java:20-29 | for a byte, `generateXORMask` equals the C++ `generate_mask` |
| JavaXorCryptor.GenerateXorMask | Java/XORCryptor.java:20-29 | the popcount loop on a `char` and the masked fold return `JavaMask(v)` |
| JavaXorCryptor.JavaMasks | Java/XORCryptor.java:32-33 | the mask array has the key's length, entry `i` the mask of key char `i` |
| JavaXorCryptor.JavaMasksAreKeyMasks | Java/XORCryptor.java:32-33 | on byte keys the Java mask array is the C++ one |
| JavaXorCryptor.GenerateCipherBytes | Java/XORCryptor.java:31-54 | the key array becomes its masks, and the table is the encrypt- or decrypt-direction table |
| JavaXorCryptor.MaskKey | Java/XORCryptor.java:32-33 | the key loop replaces every entry by its mask |
| JavaXorCryptor.MasksOf | Java/XORCryptor.java:32-33 | an array matching the masks pointwise is the mask array |
| JavaXorCryptor.FillTable | Java/XORCryptor.java:35-53 | with `& 0xFF` the table loop fills `table[i] = T(i)` when encrypting, `table[T(i)] = i` when decrypting |
| JavaXorCryptor.EncryptBytes | Java/XORCryptor.java:56-77 | throws (out of bounds `table[src[i]]`) iff some char is 256 or more; otherwise the array is the C++ `Encrypt` of its contents |
| JavaXorCryptor.EncryptPairs | Java/XORCryptor.java:58-71 | the pair loop encrypts every complete pair and leaves the nibbles of the odd last byte in `mask`/`mode` |
| JavaXorCryptor.EncryptPair | Java/XORCryptor.java:59-66 | one odd step stores the two encrypted values at `i-1` and `i` and changes nothing else |
| JavaXorCryptor.EncryptLast | Java/XORCryptor.java:72-76 | the odd tail stores the folded last value and changes nothing else |
| JavaXorCryptor.DecryptBytes | Java/XORCryptor.java:79-100 | the loop leaves the C++ `Decrypt` of the low bytes of the contents; one shared store at line 98 serves both the pair and the tail |
| JavaXorCryptor.DecryptFirst | Java/XORCryptor.java:89-97 | the pair branch stores the first decrypted byte and leaves in `mask`/`mode` the index of the second |
| JavaXorCryptor.SplitLast | Java/XORCryptor.java:85-88 | the tail branch leaves in `mask`/`mode` the index of the last decrypted byte |
| JavaXorCryptor.UnmaskLow | Java/XORCryptor.java:84-91 | the low byte of `src[i] ^ cipher[..]` on `int` is the byte XOR |
| JavaXorCryptor.JavaPairIndices | Java/XORCryptor.java:94-98 | the `int` index expressions equal the byte indexes of the C++ pair step |
| JavaXorCryptor.JavaTailIndex | Java/XORCryptor.java:86-98 | the `int` tail index equals the C++ tail index |
| JavaXorCryptor.CharCast | Java/XORCryptor.java:123-124 | `(char) j` keeps the low 16 bits of each value |
| JavaXorCryptor.ProcessData | Java/XORCryptor.java:102-126 | copies the strings into arrays, runs the cipher and copies back; the result is `ProcessResult` |
| JavaXorCryptor.ToInts | Java/XORCryptor.java:108-113 | the `charAt` loop copies the string into a fresh `int[]` |
| JavaXorCryptor.ToChars | Java/XORCryptor.java:122-125 | the `StringBuilder` loop casts every value to `char` |
| JavaXorCryptor.EncryptString | Java/XORCryptor.java:128-130 | `encrypt` is `processData` with `toEncrypt` |
| JavaXorCryptor.DecryptString | Java/XORCryptor.java:132-134 | `decrypt` is `processData` without `toEncrypt` |
| JavaXorCryptor.ProcessNull | Java/XORCryptor.java:103-106 | the result is null iff the input is null or empty or the key is null or shorter than 6 |
| JavaXorCryptor.EncryptThrows | Java/XORCryptor.java:56-77 | encryption throws iff the checks pass and some input char is 256 or more (also lines 103-117) |
| JavaXorCryptor.ProcessText | Java/XORCryptor.java:108-125 | a text result has the input's length and byte-valued chars |
| JavaXorCryptor.JavaEncryptIsCpp | Java/XORCryptor.java:102-126 | on byte strings the Java `encrypt` equals the C++ encryption with the same key masks and table |
| JavaXorCryptor.ProcessRoundTrip | Java/XORCryptor.java:102-134 | `decrypt(encrypt(s, k), k) == s` for non-empty `s` with chars below 256 and a key of at least 6 characters |
| JavaXorCryptor.LowBytesOfBytes | Java/XORCryptor.java:84 | on byte-valued arrays the low bytes are the values |
| Pad.Seal | C++/xor-cryptor.hpp:83-88 | the sealed stream has twice the text's length |
| Pad.Evens | C++/xor-cryptor.cpp:77-83 | the even-position part has `ceil(n/2)` units |
| Pad.Odds | C++/xor-cryptor.cpp:77-83 | the odd-position part has `floor(n/2)` units |
| Pad.Opened | C++/xor-cryptor.cpp:86-92 | the opened stream has the encrypted part's length |
| Pad.Open | C++/xor-cryptor.cpp:77-93 | opening gives `floor(n/2)` units |
| Pad.SealAt | C++/xor-cryptor.hpp:86-87 | pair `j` of the sealed stream is `(text[j] ^ key[j % kn] ^ c_j, c_j)` |
| Pad.SealOf | C++/xor-cryptor.hpp:83-88 | a stream whose pairs follow that rule is the sealed stream |
| Pad.OpenAt | C++/xor-cryptor.hpp:114-118 | unit `j` of the opened stream is `in[2j] ^ key[j % kn] ^ in[2j+1]`, whichever way round the XOR is written |
| Pad.PadCancel | C++/xor-cryptor.cpp:56-90 | the pad cancels out of both units of a pair |
| Pad.SealOpen | C++/xor-cryptor.hpp:86-117 | opening a sealed stream with the same key gives back the text, whatever the pads |
| Pad.SplitNext | C++/xor-cryptor.cpp:77-83 | one more unit joins the even or the odd part by the parity of its position |
| Pad.SealBelow | C++/xor-cryptor.hpp:86-87 | text, key and pads below `2^b` give a sealed stream below `2^b` (bytes stay bytes, UTF-16 units stay units) |
| Pad.OpenBelow | C++/xor-cryptor.hpp:117 | opening keeps units below `2^b` |
| Pad.SealStream | C++/xor-cryptor.cpp:52-58 | the loop with its key index `k` reset at the key length appends exactly the sealed stream |
| Pad.SplitStream | C++/xor-cryptor.cpp:76-83 | the loop puts even-position units into `rands` and odd-position units into `encrypted` |
| Pad.OpenedStream | C++/xor-cryptor.cpp:86-92 | the loop with indexes `k` and `c` wrapping at the key and pad lengths computes `enc[i] ^ key[i % kn] ^ rands[i % nr]` |
| Pad.OpenStream | C++/xor-cryptor.cpp:76-93 | splitting and then opening is `Open` |
| XorCryptHeader.EncryptCheck | C++/xor-cryptor.hpp:71-79 | accepted iff text and key are present and non-empty and `6 <= kn <= tn`; a missing or empty argument is reported first, then a key longer than the text |
| XorCryptHeader.DecryptCheck | C++/xor-cryptor.hpp:105-110 | accepted iff input and key are present and non-empty and `kn >= 6`; there is no check that the key is shorter than the input |
| XorCryptHeader.SealInto | C++/xor-cryptor.hpp:83-88 | the loop fills the first `2*tn` bytes with the sealed pairs |
| XorCryptHeader.EncryptBytes | C++/xor-cryptor.hpp:70-94 | the error is the check's error and carries no data. On success the data is the sealed pairs followed by a NUL at `2*tn`, its length is `2*tn`, and every pad byte is in `[0, 128)` |
| XorCryptHeader.DecryptBytes | C++/xor-cryptor.hpp:104-124 | the error is the check's error and carries no data; on success the data is `Open(input)` followed by a NUL, length `tn/2` |
| XorCryptHeader.HeaderRoundTrip | C++/xor-cryptor.hpp:70-124 | an accepted encryption is accepted by decryption and decrypts back to the text |
| XorCryptSource.Bytes | C++/xor-cryptor.cpp:39-47 | an error message is stored as its bytes |
| XorCryptSource.RandChar | C++/xor-cryptor.cpp:27-34 | `getRandChar` gives an ASCII letter, upper case exactly when `cap == 1` |
| XorCryptSource.RandCharLetters | C++/xor-cryptor.cpp:27-34 | every ASCII letter is some draw of `getRandChar` |
| XorCryptSource.Encrypt | C++/xor-cryptor.cpp:36-63 | both slots start as `"!#-"`. On an error (same checks and order as the header) slot 1 holds the message. Otherwise slot 0 holds the sealed pairs and slot 1 keeps `"!#-"` |
| XorCryptSource.SealedLetters | C++/xor-cryptor.cpp:55-56 | every pad unit of the output is an ASCII letter |
| XorCryptSource.Decrypt | C++/xor-cryptor.cpp:65-97 | both slots start as `"!#-"`; on an error slot 1 holds the message; otherwise slot 0 holds the opened stream (split into even and odd positions, XORed back) and slot 1 keeps `"!#-"` |
| JavaPadCryptor.KeyXor | Java/com/beesechurger/shank03/XORCryptor.java:111 | the non-randomized transform keeps the length (also line 183) |
| JavaPadCryptor.KeyXorTwice | Java/com/beesechurger/shank03/XORCryptor.java:111 | XORing with the key twice restores the data (also line 183) |
| JavaPadCryptor.EncryptCheck | Java/com/beesechurger/shank03/XORCryptor.java:84-95 | accepted iff text and key are non-null and `6 <= key.length <= text.length`; null is reported first, then a key longer than the text |
| JavaPadCryptor.DecryptCheck | Java/com/beesechurger/shank03/XORCryptor.java:145-152 | accepted iff both are non-null and `key.length >= 6` |
| JavaPadCryptor.Encrypted | Java/com/beesechurger/shank03/XORCryptor.java:97-118 | the output has length `2n + 10` when randomized, `n` otherwise |
| JavaPadCryptor.Decrypted | Java/com/beesechurger/shank03/XORCryptor.java:154-187 | the output has length `(n - 10) / 2` after a flag, `n` otherwise |
| JavaPadCryptor.HandleRandomized | Java/com/beesechurger/shank03/XORCryptor.java:195-206 | the counting loop strips the 10-byte `RANDOMIZED` prefix iff the data starts with it; shorter data is returned unchanged |
| JavaPadCryptor.Encrypt | Java/com/beesechurger/shank03/XORCryptor.java:83-124 | the listener is called once, with data or with an error and never both. The error is the check's. On success the data is the flag followed by the pairs `(b ^ k ^ c, c)` when randomized, and `b ^ k` otherwise |
| JavaPadCryptor.FillSealed | Java/com/beesechurger/shank03/XORCryptor.java:106-118 | after the flag, position `10 + 2j` holds `t[j] ^ key[j % kn] ^ c_j` and `10 + 2j + 1` holds `c_j`; the flag is kept |
| JavaPadCryptor.FillKeyXor | Java/com/beesechurger/shank03/XORCryptor.java:106-118 | the non-randomized loop stores `t[i] ^ key[i % kn]` |
| JavaPadCryptor.Decrypt | Java/com/beesechurger/shank03/XORCryptor.java:144-193 | a failed check calls the listener with the error alone. A flagged input of odd length makes the decryption thread overrun `rands`, so the listener is never called. Otherwise it gets the decrypted data and no error |
| JavaPadCryptor.SplitInto | Java/com/beesechurger/shank03/XORCryptor.java:160-170 | the split loop succeeds iff the stripped input has even length, then `rands` holds the even and `encryptedText` the odd positions |
| JavaPadCryptor.OpenInto | Java/com/beesechurger/shank03/XORCryptor.java:175-187 | the randomized loop computes `enc[i] ^ key[k] ^ rands[c]` with both indexes wrapping |
| JavaPadCryptor.KeyXorInto | Java/com/beesechurger/shank03/XORCryptor.java:172-187 | the non-randomized loop XORs the copied input with the key again |
| JavaPadCryptor.RandomizedRoundTrip | Java/com/beesechurger/shank03/XORCryptor.java:97-187 | a randomized encryption passes the decrypt check, carries the flag, has even length and decrypts back to the text |
| JavaPadCryptor.PlainRoundTrip | Java/com/beesechurger/shank03/XORCryptor.java:154-183 | a non-randomized encryption decrypts back to the text iff the ciphertext does not happen to start with `RANDOMIZED` |
| JavaPadCryptor.FlagCollision | Java/com/beesechurger/shank03/XORCryptor.java:154-156 | ten zero bytes encrypted with the key `RANDOMIZED` without randomizing give the flag itself, which decrypts to the empty array (also lines 195-206) |
| NodeLib.EncryptCheck | Nodejs/lib/xor-crypt.ts:36-44 | accepted iff text and key are non-null and `6 <= key.length <= text.length`; null first, then a key longer than the text |
| NodeLib.DecryptCheck | Nodejs/lib/xor-crypt.ts:79-84 | accepted iff both are non-null and `key.length >= 6` |
| NodeLib.Encrypt | Nodejs/lib/xor-crypt.ts:35-59 | the reply carries a value or an error, never both. The error is the check's. On success the value is the pairs `(text ^ key ^ c, c)` with letter pads |
| NodeLib.TrySeal | Nodejs/lib/xor-crypt.ts:45-55 | the loop with its wrapping key index builds the sealed string |
| NodeLib.TryOpen | Nodejs/lib/xor-crypt.ts:85-103 | the split loop and the XOR loop build the opened string |
| NodeLib.Decrypt | Nodejs/lib/xor-crypt.ts:78-107 | value or error, never both; the error is the check's; on success the value is `Open(input)` |
| NodeLib.LibRoundTrip | Nodejs/lib/xor-crypt.ts:35-107 | an accepted encryption passes the decrypt check and decrypts back to the text |
| NodeDist.EncryptCheck | Nodejs/dist/xor-crypt.js:37-45 | accepted iff both are non-null, `key.length <= text.length` and `text.length >= 6`: no minimum key length |
| NodeDist.ChecksWeaker | Nodejs/dist/xor-crypt.js:37-45 | everything the .ts checks accept the .js checks accept, and the extra inputs are exactly those with keys shorter than 6 |
| NodeDist.Encrypt | Nodejs/dist/xor-crypt.js:36-62 | a failed check returns its error. An empty key passes the checks, and then `key[0].charCodeAt` throws, giving `"Err: ..."`. Any other key gives the sealed pairs |
| NodeDist.Decrypt | Nodejs/dist/xor-crypt.js:81-110 | only null is rejected. With an empty key an input of length 2 or more throws, and a shorter one gives the empty string. Otherwise the result is `Open(input)` |
| NodeDist.HelloBro | Nodejs/test/test.js:7-13 | `"hello bro!"` with key `"cool"` passes the .js checks and round-trips, but the .ts checks reject it as too short |
| Chunks.ChunkCount | cli.hpp:240-249 | `pool_size` is `ceil(L / CHUNK_SIZE)` with `CHUNK_SIZE` = 64 MiB: enough chunks to hold `L` bytes, not one more, and 0 exactly when `L` is 0 |
| Chunks.LastChunk | cli.hpp:241-247 | the last chunk has length `L % CHUNK_SIZE`, or `CHUNK_SIZE` when that is 0, so it is never empty and the full chunks before it plus it make `L` |
| Chunks.ChunkLens | cli.hpp:254-256 | there is one length per chunk |
| Chunks.ChunkLensPrefix | cli.hpp:254-256 | the chunks before chunk `k` are all full (`k * CHUNK_SIZE` bytes) |
| Chunks.ChunkLensSum | cli.hpp:240-256 | the chunk lengths sum to `L` |
| Cli.BufferManager.constructor | cli.hpp:240-257 | one empty slot per chunk, the lengths as above |
| Cli.BufferManager.GetBuffer | cli.hpp:259-262 | allocates a buffer of the slot's length only when the slot is empty; otherwise returns the slot's buffer and changes nothing |
| Cli.BufferManager.Store | cli.hpp:345-365 | writing through the pointer of an allocated slot changes that slot only |
| Cli.BufferManager.FreeBuffer | cli.hpp:268-272 | empties slot `i` and sets its length to 0; all other slots and lengths are unchanged |
| Cli.FileHandler.constructor | cli.hpp:321-328 | the payload is the file, less 32 bytes when decrypting. There is one empty slot per chunk of it, and `buff_queue` starts all -1 |
| Cli.FileHandler.ReadHash | cli.hpp:335-339 | the next 32 bytes of the file, the writer's state unchanged |
| Cli.FileHandler.ReadFile | cli.hpp:343-348 | fills the buffer of chunk `i` with the next `buffer_len[i]` bytes when there are enough, and fails otherwise (the source throws) |
| Cli.FileHandler.QueueChunk | cli.hpp:350-353 | sets only entry `i` of `buff_queue`, to `i + 1` (cli.hpp) or `i` (xor_cryptor.cpp), and records that chunk's bytes for the writer (also xor_cryptor.cpp:233-236) |
| Cli.FileHandler.WriterStep | cli.hpp:359-368 | the writer writes chunk `c` only when `buff_queue[c] != -1`. It then appends exactly that chunk, frees its slot and moves to `c + 1`. Otherwise nothing changes (also xor_cryptor.cpp:242-251) |
| Cli.FileHandler.Drain | cli.hpp:360-368 | the writer polls until the current chunk is unqueued or all are written; the output is the chunks before `c` in index order |
| Cli.WriteChunks | cli.hpp:306-376 | reading every chunk, then queueing them in ANY order that names each (the writer polling after each), writes the payload: the chunks in index order (also xor_cryptor.cpp:228-251) |
| Cli.ReadNext | cli.hpp:343-348 | one read extends the chunks read so far by the next stretch of the file |
| Cli.ReadChunks | cli.hpp:343-348 | reading the chunks in index order leaves chunk `i` holding its stretch, and together they are the payload |
| Cli.FileHandler.StoreChunk | cli.hpp:345 | a worker's processed bytes go into its own chunk's buffer, through the pointer `get_buffer` returned, and no other slot changes |
| Cli.QueueChunks | cli.hpp:350-368 | whichever order the chunks are queued in, the writer writes all of them, in index order |
| FileManager.FileManager.InitWriteChunks | file_manager.cpp:22-29 | `n` empty slots, every length 0 |
| FileManager.FileManager.WriteChunk | file_manager.cpp:31-38 | nothing happens without a pool or when the slot already holds a buffer, so the first write wins. Otherwise the buffer and its length are recorded at `chunk_id` only |
| FileManager.FileManager.DispatchWriter | file_manager.cpp:40-65 | a second dispatch does nothing. A first dispatch completes at once, without writing, exactly when the pool is uninitialised or has no chunk (the loop runs no turn) |
| FileManager.FileManager.WriterStep | file_manager.cpp:49-62 | the writer writes slot `c` only when it is non-empty, strictly in order. It empties the slot after writing, and it has completed exactly when no slot is left |
| FileManager.WriteInOrder | file_manager.cpp:22-62 | handing over the chunks in any order (repeats allowed) while the writer polls leaves the destination equal to the chunks in index order |
| RustFileHandler.FileHandler.constructor | src/file_handler.rs:35-54 | the payload is the metadata length, less 32 when decrypting; `total_chunks` and `last_chunk_len` are the chunk count and last length |
| RustFileHandler.FileHandler.ReadHash | src/file_handler.rs:60-64 | `read_exact` of 32 bytes gives them, or fails when the file is shorter |
| RustFileHandler.FileHandler.ReadBuffer | src/file_handler.rs:66-77 | the buffer has `last_chunk_len` bytes for the last index and `CHUNK_SIZE` otherwise, read with `read_exact` |
| RustFileHandler.BufferLensSum | src/file_handler.rs:42-77 | over all indexes the buffer lengths are the chunk lengths of cli.hpp and sum to the payload length |
| RustFileHandler.Least | src/file_handler.rs:96-99 | `ref_idx` is the minimum of `usize::MAX` and the ids received |
| RustFileHandler.Overlay | src/file_handler.rs:97-104 | each received buffer is stored at its id, and every slot that held a buffer or was named still does |
| RustFileHandler.FirstFail | src/file_handler.rs:106-113 | the number of writes before the first failing one (at most the batch size) |
| RustFileHandler.FirstFailUnique | src/file_handler.rs:106-113 | the first failure is determined by the writes that went through |
| RustFileHandler.Written | src/file_handler.rs:106-108 | the buffers of the `k` slots from `ref_idx` on |
| RustFileHandler.Cleared | src/file_handler.rs:110 | the slots from `ref_idx` on are emptied as they are written |
| RustFileHandler.Writer.constructor | src/file_handler.rs:89-90 | a pool of `pool_size` empty slots, not broken |
| RustFileHandler.Writer.Trigger | src/file_handler.rs:91-118 | a trigger of 0 stops the loop and changes nothing. For a batch of `n`, the buffers are stored at their ids and the `n` slots from the least id are written in order until the first failing write. Those slots, and the failing one, are emptied. `broken` is sent, and the loop stops iff it is set |
| RustFileHandler.Writer.Receive | src/file_handler.rs:96-104 | each received buffer goes to its id; `ref_idx` is the least id |
| RustFileHandler.Writer.WriteSlots | src/file_handler.rs:105-114 | writes the `n` slots from `ref_idx` until one fails, empties them and sends `broken` |
| RustFileHandler.Writer.WriteLoop | src/file_handler.rs:106-113 | the write loop writes the slots before the first failure and stops after it, emptying each it touched |
| RustFileHandler.Writer.Finish | src/file_handler.rs:119-122 | all slots are emptied and the final message is `!broken` |
| RustJob.LastDot | src/job.rs:89-125 | the result is the position of a dot with no dot after it, and none means the name holds no dot |
| RustJob.LastDotIs | src/job.rs:89-125 | a dot with no dot after it is the last dot |
| RustJob.StemExtension | src/job.rs:89-125 | when a name has an extension, the stem, a dot and the extension make up the name |
| RustJob.EncryptedName | src/job.rs:94-120 | when encrypting, a name whose extension does not end in "xrc" becomes the name followed by ".xrc"; a name whose extension does end in "xrc" stays as it is |
| RustJob.DecryptedName | src/job.rs:107-124 | when decrypting, a name whose extension ends in "xrc" becomes its stem; any other name stays as it is |
| RustJob.AppendedXrc | src/job.rs:103-105 | a non-empty name followed by ".xrc" has the extension "xrc", and the name is its stem |
| RustJob.NameRoundTrip | src/job.rs:89-125 | decrypting the destination name of an encryption gives back every non-empty name whose extension does not end in "xrc" |
| RustJob.NameExamples | src/job.rs:89-125 | "a.txt" becomes "a.txt.xrc" and "a" becomes "a.xrc" |
| RustJob.Range | src/job.rs:165-187 | the consecutive indexes from a up to b |
| RustJob.BatchSize | src/job.rs:162 | a batch has at least one worker, and half of the jobs once there are two jobs or more |
| RustJob.NextBatch | src/job.rs:165-187 | a batch is the consecutive indexes from the start, `n` of them or fewer when the pool size comes first; the next start follows the batch |
| RustJob.OverlayRange | src/job.rs:166-196 | storing a batch of consecutive indexes puts each buffer at its own index and leaves the other slots alone |
| RustJob.BatchWrite | src/job.rs:166-196 | in an empty pool a batch's least index is its first, the writer writes its buffers in order, and emptying the written slots leaves the pool empty |
| RustJob.ConcatSplit | src/job.rs:163-204 | the chunks before an index followed by the next `k` chunks are the first chunks up to that index plus `k` |
| RustJob.BatchConcat | src/job.rs:163-204 | the chunks before a batch followed by the first `k` of the batch are a prefix of the chunks |
| RustJob.FailuresAfter | src/job.rs:163-204 | with no failure before a batch, the batch's first failure is the first failure overall, and a batch with no failure leaves none before its end |
| RustJob.ProcessChunks | src/job.rs:160-215 | the destination holds the chunks in index order up to the first failed write; the final signal holds iff no write failed; the source is removed iff the signal holds and `preserve` is off |
| RustJob.RunBatch | src/job.rs:163-204 | after one batch, either a write failed and the destination holds the chunks up to the first failure, or the pool is empty again and the destination holds every chunk before the next index |
| RustJob.BrokenBatch | src/job.rs:196-199 | a batch in which a write failed leaves the destination holding the chunks up to the first failure |
| RustJob.BatchOut | src/job.rs:196 | after the first `k` writes of a batch, the destination holds the chunks before the batch plus `k` |
| RustJob.CompleteBatch | src/job.rs:196-204 | a batch whose writes all succeed leaves the pool empty and the destination holding every chunk before the next index |
| RustMain.LacksTail | src/main.rs:156 | a string with no occurrence of a pattern has none in its tail either |
| RustMain.RemoveAllAbsent | src/main.rs:156 | `replace` with the empty string keeps a string that holds no occurrence of the pattern |
| RustMain.RemoveKeeps | src/main.rs:156 | `replace` keeps a leading character that cannot start the pattern |
| RustMain.RemoveDrops | src/main.rs:156 | `replace` drops a leading occurrence of the pattern |
| RustMain.ExecDecision | src/main.rs:144-157 | a rejected source is reported by its own path |
| RustMain.DecisionPartition | src/main.rs:145-156 | encrypting rejects exactly the paths ending in ".xrc", and decrypting exactly the others; an accepted encryption's destination is the source followed by a suffix ending in ".xrc" |
| RustMain.RemoveAppended | src/main.rs:150-156 | removing ".xrc" from a path whose only ".xrc" is the appended one gives the path back |
| RustMain.ExecRoundTrip | src/main.rs:144-157 | a path with no ".xrc" of its own is encrypted to the path followed by ".xrc", and that decrypts back to the path |
| RustMain.RemoveBoth | src/main.rs:156 | `replace` removes an inner ".xrc" as well as the suffix |
| RustMain.InnerXrcLost | src/main.rs:144-157 | "a.xrcb" is encrypted to "a.xrcb.xrc", which decrypts to "ab", so such a name does not come back |
| RustMain.ExecEffect | src/main.rs:109-116 | only the source can be removed. A destination is created iff the rule accepts the source and the source is not empty, and it has the rule's name. The source is removed iff the rule rejects it or `preserve` is off (also lines 144-176, lines 230-232) |
| RustMain.RejectedRemoved | src/main.rs:113-116 | a source the rule rejects is deleted even when `preserve` is set, and gets no destination (also lines 145-155) |
| RustMain.SwapFold | src/main.rs:246 | for a byte made of two nibbles, XORing it with its nibble swap puts the XOR of the nibbles in both nibbles |
| RustMain.Or16 | src/main.rs:245 | OR-ing a nibble below a shifted value adds the nibble |
| RustMain.RustMask | src/main.rs:239-247 | the `u8` steps for one key byte stay within a byte and give the same mask as the C++ `generate_mask` |
| RustMain.GenerateHash | src/main.rs:236-248 | every key byte is replaced by its mask, the same masks the C++ cipher derives |
| RustCli.IncludedPartition | src/cli.rs:200-216 | every directory entry is taken by exactly one of the two modes |
| RustCli.XrcExtension | src/cli.rs:200-216 | an entry's extension is "xrc" iff its name ends in ".xrc" and is longer than that |
| RustCli.IncludedAsCpp | src/cli.rs:200-216 | the Rust filter takes the same entries as the cli.hpp filter in the same mode (also lines 259-274) |
| RustCli.SelectedMembers | src/cli.rs:182-218 | a path is inserted from a directory's entries iff it is the absolute path of an entry that is a regular file and passes the filter (also lines 241-276) |
| RustCli.InsertEntries | src/cli.rs:182-218 | the entry loop skips directories and inserts, under its absolute path, each regular file the filter takes, and nothing else (also lines 241-276) |
| RustCli.ListFiles | src/cli.rs:148-222 | the map `list_files` leaves is exactly the listing of its arguments, by the argument loop and the entry loop |
| RustCli.ListFilesMembers | src/cli.rs:149-222 | a path is listed iff it is the absolute path of a regular-file argument, or of a filtered regular file of a directory argument; as a set of absolute paths it holds each file once |
| RustCli.AliasesOnce | src/cli.rs:162-170 | two regular-file arguments with the same absolute path, such as `a` and `./a`, give a single entry |
| RustCli.ExplicitWrongModeRemoved | src/cli.rs:162-170 | a regular file named as an argument is listed under its absolute path whatever its extension; if it is of the wrong mode, it is then removed with no destination, even when `preserve` is set |
| RustCli.CollectPaths | src/cli.rs:88-91 | moving the map's keys into the list, in whatever order the map yields them, puts each listed file in the list exactly once |
| RustCli.ParseUsize | src/cli.rs:70 | a `-j` value that parses is a `usize`, below 2^64 |
| RustCli.Decimal | src/cli.rs:70 | the decimal form of a number is a non-empty string of digits |
| RustCli.DecimalValue | src/cli.rs:70 | reading the decimal form of a number gives the number back |
| RustCli.ParseDecimal | src/cli.rs:70 | every `usize` written in decimal parses back to itself |
| RustCli.ParseArgs | src/cli.rs:50-99 | choosing both modes or neither is an error. Then a `-j` value that does not parse panics, and having no path arguments is an error. A success has one mode, a non-empty file set, and the parsed `-j` value, else the available parallelism, else 4 |
| RustCli.ParseArgsOk | src/cli.rs:50-99 | parsing succeeds iff one mode is chosen, the `-j` value parses or is absent, and some file is listed; the files are then the listed ones and `preserve` is the flag |
| RustCli.WordJobsPanic | src/cli.rs:68-71 | `-j abc` or `-j -1` panics in `unwrap`, before any file argument is looked at |
| RustCli.ZeroJobsAccepted | src/cli.rs:68-71 | `-j 0` with a regular file parses successfully, with zero jobs |
| RustCli.ParseArgsChecked | src/cli.rs:50-99 | the corrected parse has at least one job on success, rejects a `-j` value of 0, and is otherwise the parse as written |
| RustCli.DivModNext | src/cli.rs:301-303 | one more index either starts a new round of `n` or advances the remainder |
| RustCli.ShareLength | src/cli.rs:301-303 | list `k` holds one path per full round of `n_jobs`, plus one when `k` is below the remainder |
| RustCli.ShareElement | src/cli.rs:301-303 | entry `j` of list `k` is path `k + n*j` |
| RustCli.QuotientBelow | src/cli.rs:301-303 | an index below a length has a smaller quotient, or the same quotient and a smaller remainder |
| RustCli.SharePosition | src/cli.rs:301-303 | path `k + n*j` is entry `j` of list `k`, so every path lands in exactly one list |
| RustCli.ShareSizes | src/cli.rs:301-303 | a later list is never longer than an earlier one, and never shorter by more than one path |
| RustCli.TotalGrow | src/cli.rs:302 | appending a path to one list grows the total number of paths by one |
| RustCli.GetPaths | src/cli.rs:296-305 | there are `n_jobs` lists, list `k` holds the paths whose index is `k` modulo `n_jobs` in their order, and together they hold every path |
| CliArgs.FileName | cli.hpp:121-122 | the last component of a path holds no '/' |
| CliArgs.KeptPartition | cli.hpp:121-132 | every path is kept by exactly one of encrypt and decrypt, and by neither in the invalid mode |
| CliArgs.ListEnd | cli.hpp:108-110 | the file list after `-f` ends at the first argument that starts with '-', or at the end; none of the arguments in between starts with '-' |
| CliArgs.ParseArgs | cli.hpp:79-144 | the loop over the arguments and the filter give the result of the parse function: none when the scan fails, when no file argument is given, or when no file passes the filter |
| CliArgs.CollectList | cli.hpp:108-110 | the arguments from the start up to the list end are appended to the file arguments |
| CliArgs.GatherFiles | cli.hpp:119-137 | the files gathered from the collected paths, in order |
| CliArgs.GatherOne | cli.hpp:120-136 | one path adds itself when it is a kept regular file, and, when it is a directory, the kept files of its entries or of its whole tree |
| CliArgs.GatherNext | cli.hpp:119-137 | one more collected path adds its own contribution |
| CliArgs.SelectInto | cli.hpp:128-134 | the directory loop skips directories and keeps the regular files that pass the filter, in order (also lines 38-46) |
| CliArgs.SelectKept | cli.hpp:128-134 | every selected entry is a regular file that the filter keeps |
| CliArgs.GatherKept | cli.hpp:119-137 | every gathered file is a regular file that the filter keeps |
| CliArgs.ParsedFiles | cli.hpp:113-143 | a successful parse names at least one file and has a valid mode, and every file is a regular file of that mode |
| CliArgs.NoFlagsBetween | cli.hpp:108-110 | arguments that do not start with '-' hold no mode flag |
| CliArgs.ScanModes | cli.hpp:85-112 | a scan that succeeds has met at most one mode flag, and it ends with a valid mode iff it met one, the flag of that mode |
| CliArgs.ModeFlagsOnce | cli.hpp:89-102 | a second `-e` or `-d` anywhere makes the parse fail; a successful parse met exactly one mode flag, of its own mode |
| CliArgs.LastFileFlagFails | cli.hpp:103-107 | a scan at or before a final `-f` fails |
| CliArgs.LastFileFlag | cli.hpp:103-107 | `-f` as the last argument makes the parse fail |
| CliArgs.FileArgsUndashed | cli.hpp:108-110 | no collected file argument starts with '-' |
| BitStreams.ByteLength | xor_cryptor.hpp:65-81 | a value takes at least one byte |
| BitStreams.ByteLengthFits | xor_cryptor.hpp:79-80 | the length is minimal: the value fits in that many bytes and, past one byte, not in one fewer |
| BitStreams.ByteLengthAtMost | xor_cryptor.hpp:79-80 | a value below `256^k` takes at most `k` bytes |
| BitStreams.ByteLength64 | xor_cryptor.hpp:65-81 | a 64-bit value takes one to eight bytes, so the length fits in the low nibble of a header |
| BitStreams.BeBytes | xor_cryptor.hpp:83-85 | `write_to_stream` emits as many bytes as the length |
| BitStreams.BeValue | xor_cryptor.hpp:232-236 | the decoder's `(v << 8) OR b` stays a 64-bit value |
| BitStreams.BeRoundTrip | xor_cryptor.hpp:83-85 | reading the big-endian bytes back gives the value (also lines 232-236) |
| BitStreams.BeLeading | xor_cryptor.hpp:79-85 | the first byte is zero iff the value is zero |
| BitStreams.BeDigit | xor_cryptor.hpp:83-85 | byte `j` of the output is byte `n - 1 - j` of the value, counting from the least significant |
| BitStreams.DigitHigh | xor_cryptor.hpp:79 | every byte of the value at or above its length is zero |
| BitStreams.DigitTop | xor_cryptor.hpp:79 | the top byte of a non-zero value is not zero |
| BitStreams.ShiftDigit | xor_cryptor.hpp:74-78 | the left shift by `64 - 8(i+1)` bits, cut to 64 bits, then the right shift by 56 keep byte `i` |
| BitStreams.NewBitStream | xor_cryptor.hpp:65-81 | the length is the minimal byte length, and slot `i` below it holds byte `i` of the value |
| BitStreams.ExtractOrder | xor_cryptor.hpp:53-56 | the split gives the high and the low nibble of the byte |
| BitStreams.HeaderSplit | xor_cryptor.hpp:121-128 | a header byte splits back into its group and its length, and the bytes after it are the value's (also lines 53-56) |
| BitStreams.WriteNodeProperty | xor_cryptor.hpp:121-128 | appends the header byte, group times 16 plus length, then the value's bytes, most significant first |
| NibbleTree.Hi | xor_cryptor.hpp:168 | the group of a byte is a nibble |
| NibbleTree.Lo | xor_cryptor.hpp:168-169 | the data of a byte in its group is a nibble |
| NibbleTree.Order | xor_cryptor.hpp:171-183 | the groups in order of first appearance are nibbles |
| NibbleTree.OrderDistinct | xor_cryptor.hpp:171-174 | no group is listed twice |
| NibbleTree.OrderMembers | xor_cryptor.hpp:171-174 | the listed groups are exactly the groups of the input bytes |
| NibbleTree.OrderPrefix | xor_cryptor.hpp:166-187 | the groups of a prefix come first, in the same order |
| NibbleTree.OrderHead | xor_cryptor.hpp:171-174 | the first listed group is the group of the first byte (also line 275) |
| NibbleTree.Elems | xor_cryptor.hpp:162 | the set of values holds exactly the elements of the sequence |
| NibbleTree.DistinctElems | xor_cryptor.hpp:162 | a sequence without repeats has as many values as elements |
| NibbleTree.OrderBound | xor_cryptor.hpp:162-190 | there are at most sixteen groups, so their number fits the leading byte |
| NibbleTree.Count | xor_cryptor.hpp:176 | a group has no more bytes than the input |
| NibbleTree.CountStep | xor_cryptor.hpp:176 | one more byte adds one to the size of its own group only |
| NibbleTree.CountMonotone | xor_cryptor.hpp:176 | a longer prefix has no fewer bytes in a group, and more when the added bytes include one of it |
| NibbleTree.CountListed | xor_cryptor.hpp:171-176 | a group has bytes iff it is listed |
| NibbleTree.Link | xor_cryptor.hpp:178-185 | the link of an entry is a nibble |
| NibbleTree.ZeroLink | xor_cryptor.hpp:133-137 | a zero link that leaves the group is exactly an exception; a non-zero link is the next byte's group, which differs from this one |
| NibbleTree.Stream | xor_cryptor.hpp:138-139 | a group's stream has one entry per byte of the group |
| NibbleTree.Cycled | xor_cryptor.hpp:195-199 | the key cycles over the streams without changing their length |
| NibbleTree.TotalSnoc | xor_cryptor.hpp:176 | one more byte adds one to the total of the listed groups iff its group is listed |
| NibbleTree.TotalOrder | xor_cryptor.hpp:190-193 | the sizes in the header add up to the length of the input (also lines 241-242) |
| NibbleTree.StreamsTotal | xor_cryptor.hpp:195-204 | the streams hold one entry per byte of the listed groups |
| NibbleTree.StreamAt | xor_cryptor.hpp:138-139 | the entry of byte `i` is at its rank in the stream of its group |
| NibbleTree.EntrySplit | xor_cryptor.hpp:131-139 | an entry is a byte, `extract_order` splits it into the low nibble and the link, and the group and the low nibble make up the original byte (also lines 279-282) |
| NibbleTree.ExcPrefix | xor_cryptor.hpp:135 | a group's exception list only grows, by appending |
| NibbleTree.ExcAbove | xor_cryptor.hpp:135 | the exceptions at or after a position have ranks no lower than the group's count before it |
| NibbleTree.CycledTwice | xor_cryptor.hpp:195-199 | XORing the cycled key twice gives the bytes back (also lines 266-270) |
| NibbleTree.HeaderNext | xor_cryptor.hpp:191-202 | one more listed group adds its header and its stream |
| NibbleEncoder.Register | xor_cryptor.hpp:171-183 | a group met for the first time gets an empty record and joins the order; a known one changes nothing; the listed slots stay those of the order |
| NibbleEncoder.InsertNode | xor_cryptor.hpp:130-140 | the entry, data times 16 plus the link or 0, joins the group's stream and advances its rank; a link to group zero first appends an exception with the group and the rank |
| NibbleEncoder.OrderNext | xor_cryptor.hpp:171-174 | one more byte adds its group to the order iff the group is new |
| NibbleEncoder.Unseen | xor_cryptor.hpp:171-172 | a group that has not been met yet has an empty record |
| NibbleEncoder.FreshStep | xor_cryptor.hpp:175-186 | one step adds the byte's entry to its own group's record and leaves the other records alone |
| NibbleEncoder.CountByte | xor_cryptor.hpp:167-176 | after the byte's group is registered and counted, the order is the order of the prefix, and only that group's size has grown |
| NibbleEncoder.LookAhead | xor_cryptor.hpp:178-185 | the next byte's group is registered; the node links to it iff it differs, and a link to group zero is kept |
| NibbleEncoder.InsertByte | xor_cryptor.hpp:186 | after `insert_node` the table, the order and the exceptions are those of one more byte |
| NibbleEncoder.EncodeStep | xor_cryptor.hpp:166-187 | one turn of the scan keeps the table, the order and the exceptions equal to those of the prefix read so far |
| NibbleEncoder.CycleInto | xor_cryptor.hpp:195-200 | a group's stream is XORed with the key, and the key index carries over and wraps at the key's length |
| NibbleEncoder.FlushGroup | xor_cryptor.hpp:191-202 | one group adds its header to the output and its XORed stream to the stream buffer |
| NibbleEncoder.Flush | xor_cryptor.hpp:189-210 | the flush gives the encoding: the group count, the headers, the cycled streams, the exceptions |
| NibbleEncoder.EncryptBytes | xor_cryptor.hpp:156-214 | the output is the encoding of the input under the key |
| NibbleDecoder.HeaderEntry | xor_cryptor.hpp:229-242 | one header entry keeps the table at sixteen slots of nibble groups; a read past the end of the input gives none |
| NibbleDecoder.ParseHeader | xor_cryptor.hpp:227-243 | the header parse keeps the table at sixteen slots of nibble groups |
| NibbleDecoder.HeaderStaysNone | xor_cryptor.hpp:228-243 | once an entry cannot be read, no longer header can be read |
| NibbleDecoder.ParseExceptions | xor_cryptor.hpp:247-261 | the exception parse keeps the sixteen slots |
| NibbleDecoder.FillStreams | xor_cryptor.hpp:265-272 | the stream fill keeps the sixteen slots |
| NibbleDecoder.RemainingUpdate | xor_cryptor.hpp:276-286 | changing one slot changes the entries left to read by the change in that slot alone |
| NibbleDecoder.NextValidParent | xor_cryptor.hpp:142-154 | the next group is a nibble, and following a link leaves the entries left to read unchanged |
| NibbleDecoder.EmptyTable | xor_cryptor.hpp:222 | the table has sixteen slots |
| NibbleDecoder.Start | xor_cryptor.hpp:226-227 | the state before the header is well formed |
| NibbleDecoder.ShiftOr | xor_cryptor.hpp:234-235 | on 64 bits, `(v << 8) OR b` is `(256 v + b)` modulo `2^64` |
| NibbleDecoder.ReadValue | xor_cryptor.hpp:232-256 | the inner loop reads the big-endian value of the `len` bytes at `idx` |
| NibbleDecoder.ReadEntry | xor_cryptor.hpp:229-242 | one turn of the header loop computes the header entry |
| NibbleDecoder.ReadHeader | xor_cryptor.hpp:227-243 | the header loop reads as many entries as the first byte says, and fails iff one cannot be read |
| NibbleDecoder.ReadExceptions | xor_cryptor.hpp:247-261 | the exception loop computes the exception parse from the given position |
| NibbleDecoder.ReadStreams | xor_cryptor.hpp:265-272 | the stream loop computes the stream fill |
| NibbleDecoder.WalkStreams | xor_cryptor.hpp:275-286 | the output loop computes the walk from the given group |
| NibbleDecoder.DecryptBody | xor_cryptor.hpp:244-286 | after the header, the exceptions start past the sum of the sizes, the streams start at the end of the header, and the walk starts at the first group |
| NibbleDecoder.DecryptBytes | xor_cryptor.hpp:216-294 | the method computes the decoding of the input under the key |
| NibbleExceptionsRead.ReadAll | xor_cryptor.hpp:247-261 | the exception loop over the written exceptions, running to the end of the input, adds every (group, rank) pair to its group's list, in order |
| NibbleExceptionsRead.ExcBytesPairs | xor_cryptor.hpp:130-140 | the exception bytes are one header and one rank per exception, in input order (also line 205) |
| NibbleExceptionsRead.ExcTable | xor_cryptor.hpp:237-261 | the table of the listed groups, with their sizes and the exceptions read so far, has sixteen slots |
| NibbleExceptionsRead.PairsPresent | xor_cryptor.hpp:257 | the group of every exception was created by the header, so the exception loop never uses a missing group |
| NibbleExceptionsRead.ExcPhase | xor_cryptor.hpp:244-262 | started where the exception bytes begin, the exception loop ends with every group's exception list complete |
| NibbleFillRead.FillFrom | xor_cryptor.hpp:265-272 | in the middle of the stream loop, the rest of the loop sets every remaining group's stream |
| NibbleFillRead.FillIn | xor_cryptor.hpp:266-271 | the same, from a state whose current stream still lacks a byte |
| NibbleFillRead.FlatStreams | xor_cryptor.hpp:191-202 | the streams of the listed groups, one after the other, are the written streams (also lines 265-272) |
| NibbleFillRead.FilledTable | xor_cryptor.hpp:265-273 | the table after the stream loop has sixteen slots |
| NibbleFillRead.SetAll | xor_cryptor.hpp:265-272 | setting every listed group's stream in the table the exceptions leave gives the filled table |
| NibbleFillRead.FillPhase | xor_cryptor.hpp:262-272 | from the end of the header, with the same key, the stream loop reads every group's stream back |
| NibbleWalkRead.WalkEntry | xor_cryptor.hpp:276-277 | when the walk reaches byte `j`, the group of byte `j` is listed and has entries left, and its next entry is that of byte `j` |
| NibbleWalkRead.Emitted | xor_cryptor.hpp:279-284 | the byte emitted for an entry is the original byte |
| NibbleWalkRead.ExceptionNext | xor_cryptor.hpp:144-148 | an exception is the next one its group lists |
| NibbleWalkRead.ExceptionLater | xor_cryptor.hpp:144-151 | for a byte that is no exception, its group's next exception has a higher rank |
| NibbleWalkRead.NextLinked | xor_cryptor.hpp:153 | a link to another group is followed |
| NibbleWalkRead.NextExcepted | xor_cryptor.hpp:143-148 | a zero link that is an exception is followed to group zero |
| NibbleWalkRead.NextStays | xor_cryptor.hpp:143-151 | a zero link that is no exception keeps the walk in its group |
| NibbleWalkRead.NextState | xor_cryptor.hpp:285 | after byte `j`, the walk is in the state for byte `j + 1` |
| NibbleWalkRead.WalkStep | xor_cryptor.hpp:276-286 | one turn of the output loop emits byte `j` and moves to the state for byte `j + 1` |
| NibbleWalkRead.WalkFrom | xor_cryptor.hpp:276-286 | from byte `j` on, the walk emits the rest of the input and stops |
| NibbleWalkRead.WalkStart | xor_cryptor.hpp:275 | the walk starts from the filled table and the first listed group |
| NibbleWalkRead.WalkPhase | xor_cryptor.hpp:274-286 | the walk from the filled table gives the input back |
| NibbleRoundTrip.EncodeParts | xor_cryptor.hpp:190-205 | the encoding is the group count, the headers, the key-cycled streams and the exceptions, in that order |
| NibbleRoundTrip.HeaderLayout | xor_cryptor.hpp:190-193 | the first byte is the number of groups, and the headers follow it |
| NibbleRoundTrip.StreamsLayout | xor_cryptor.hpp:204 | the cycled streams follow the headers |
| NibbleRoundTrip.ExceptionsLayout | xor_cryptor.hpp:205 | the exceptions follow the streams and end the encoding |
| NibbleRoundTrip.HeaderLength | xor_cryptor.hpp:121-128 | each header takes at most nine bytes (also lines 190-193) |
| NibbleRoundTrip.ValueRead | xor_cryptor.hpp:232-236 | the big-endian bytes of a value read back as that value |
| NibbleRoundTrip.PropertyRead | xor_cryptor.hpp:121-128 | a written header splits back into its group and its value, and is one byte longer than the value's bytes (also lines 229-236) |
| NibbleRoundTrip.EntryNew | xor_cryptor.hpp:229-242 | a header entry for a new group registers the group with its size and adds the size to the sum |
| NibbleRoundTrip.HeaderState | xor_cryptor.hpp:228-243 | the parse state after the first `t` headers is well formed |
| NibbleRoundTrip.NextState | xor_cryptor.hpp:228-243 | one more header registers the next group in order with its size |
| NibbleRoundTrip.HeaderRead | xor_cryptor.hpp:227-243 | reading the first `t` written headers gives the state after the first `t` groups |
| NibbleCodec.HeaderEnd | xor_cryptor.hpp:241-245 | after the header, the parse stands at the streams; each group holds its size and no exception, and the sizes add up to the input length |
| NibbleCodec.ExceptionsAt | xor_cryptor.hpp:244-245 | the exceptions start after the headers and the total of the sizes |
| NibbleCodec.ExceptionsDone | xor_cryptor.hpp:262 | the table the exceptions leave is the one the streams are read into |
| NibbleCodec.DecodeSteps | xor_cryptor.hpp:216-294 | decoding is the header parse, then the exceptions from past the sizes, the streams from the end of the header, and the walk from the first group |
| NibbleCodec.HeaderDone | xor_cryptor.hpp:244 | the state after the header is well formed |
| NibbleCodec.HeaderPhase | xor_cryptor.hpp:227-243 | the header of an encoding reads back |
| NibbleCodec.ExceptionPhase | xor_cryptor.hpp:244-262 | the exceptions of an encoding read back |
| NibbleCodec.StreamPhase | xor_cryptor.hpp:265-272 | the streams of an encoding read back under the same key |
| NibbleCodec.OutputPhase | xor_cryptor.hpp:274-286 | the walk gives the input back |
| NibbleCodec.RoundTrip | xor_cryptor.hpp:156-294 | with the same non-empty key, decrypting the encryption of any non-empty input that leaves the counters room gives the input back |
| NibbleCodec.EmptyLost | xor_cryptor.hpp:190 | the empty input is encoded as the single byte 0, which does not decode, because the decoder reads the first group of an empty order (also line 275) |
| NibbleCodec.DecodeFixed | xor_cryptor.hpp:216-294 | the corrected decoder differs from the original only by giving the empty output to an empty header, and agrees wherever the original succeeds |
| NibbleCodec.RoundTripFixed | xor_cryptor.hpp:156-294 | the corrected decoder undoes encryption on every input, the empty one included |

## Left out

- Threads, condition variables, mutexes, sleep-polling and `mpsc` channels are not modelled. The queue and writer sides are separate methods, and a sequential driver interleaves them. This covers `process_file` in `xor_cryptor.cpp`, the writer thread of `cli.hpp`, the thread handling of `src/job.rs` and `src/main.rs`, `src/app.rs` and `task_pool.hpp`.
- In `src/file_handler.rs` a chunk's id and its buffer travel over two separate channels. The model assumes each id arrives paired with its own buffer, and proves nothing about concurrent senders mixing them up.
- `process_file` of `src/main.rs` is not modelled. Its two nested loops hand out at most `n_jobs * n_jobs` chunk indexes. Only the `exec_cli` rule, the zero-length early return and the source removal are modelled (`RustMain.ExecEffect`).
- HMAC-SHA256 in `generate_hash` and `insert_cipher_hash` is a foreign library and is not modelled; only the key-mask loop is. For the same reason the hash check of a decrypted file is not modelled, and `ReadHash` only returns the 32 leading bytes.
- `src/xrc.rs` wraps the `xor_cryptor` crate, which is not part of this model. In `RustJob.ProcessChunks` the processed buffers are an input.
- The random sources (`effolkronium`, `java.util.Random`, `Math.random`) are not modelled. Their draws are input sequences, constrained to letters or to `[0, 128)` where the source guarantees that.
- Floating point and display are not modelled: `print_speed`, the progress indicators of `cli.hpp` and `cli.cpp`, `src/logger.rs` and `src/err.rs`.
- File I/O is not modelled. Directory walks, metadata, stream open, read, write and close, `getopt` in `main.cpp`, and the results of `wrap_up` and `close_file` are not modelled. A directory's listing and its recursive walk are inputs; a write failure is a set of failing chunk indexes.
- The declaration-only headers (`xor_cryptor.h`, `xor_cryptor_lite.h`, `xor_cryptor_base.h`, `file_manager.h`, `C++/xor_cryptor.h`, `C++/xor-cryptor.h`) are not modelled, and neither is the test vector of `C++/main.cpp`.
- The FileManager constructor and BufferManager of `xor_cryptor.cpp` are not in the source. Their `cli.hpp` counterparts are assumed: `buff_queue` starts all -1 and a chunk's slot is allocated on first use.
- Cli.FileHandler.constructor: requires a decrypted file of at least 32 bytes, because `file_length - 32` on `uint64_t` wraps below that (`cli.hpp:323`).
- RustFileHandler.FileHandler.constructor: requires a decrypted file of at least 32 bytes, for the same `u64` underflow (`src/file_handler.rs:40`).
- RustFileHandler.FileHandler.ReadBuffer: requires at least one chunk, because `total_chunks - 1` underflows when there are none (`src/file_handler.rs:69`).
- NibbleEncoder.EncryptBytes: requires input shorter than `2^64` and a non-empty key when the input is not empty. Indexing an empty key is undefined behaviour in the source.
- NibbleCodec.RoundTrip: stated for non-empty inputs of at most `2^64 - 256` bytes and a non-empty key. Below that bound no `uint64_t` position of the decoder wraps. The empty input is the finding below.
- The `catch` branches of the nibble-tree codec are not modelled: every `std::exception` gives `CipherData(true)`, and `process_file` then returns false. Allocation failures are not modelled either. The decoder's undefined behaviour on malformed input (a read past the end, an index into an empty order or key, a group never created) is modelled as `None`.
- The nibble-tree codec tables are sequences of optional records rather than heap-allocated `Byte` objects. The records are reached only through the table, so no aliasing is lost.
- RustCli.ListFiles: the breadth-first queue of `recursive_itr_dirs` (`src/cli.rs:224-278`) is not modelled. The files its walk meets are the input sequence `walk`, as for `cli.hpp`. The queue's visiting order, a subdirectory it cannot read and a directory cycle through a symbolic link (on which the queue never empties) are folded into that input.
- RustCli.ListFiles: `absolutize` is the input function `abs`. Its failure, an `unwrap` panic when the working directory cannot be read, is not modelled.
- RustCli.ParseArgs: `usize` is taken to be 64 bits wide. clap matching the flags (`get_matches`, which exits on an unknown flag) is not modelled; the matched flags are the inputs.
- XorCryptHeader.DecryptBytes: the loop indexes `i`, `k` and `idx` of `C++/xor-cryptor.hpp:114` are `int`. They overflow, which is undefined behaviour, on inputs of 2^31 bytes or more. The model's indexes are unbounded, so it describes shorter inputs only. The `int` index `i` of the split loop at `C++/xor-cryptor.cpp:77` is treated the same way.
- The twin `C++/xor_cryptor.hpp` has the same encoder and decoder as `xor_cryptor.hpp`, without the progress callbacks. One model covers both, and its rows cite `xor_cryptor.hpp`.

## Findings

| source | as written | input that shows it | evidently intended | confidence | as-written member | corrected member |
|---|---|---|---|---|---|---|
| src/cli.rs:68-71 | `-j` is parsed as any `usize`, 0 included, and `get_paths` then computes `i % self.n_jobs` (line 302) | `-e -j 0 file` with a regular file: the parse succeeds with 0 jobs, and `get_paths` panics dividing by zero | reject a job count of 0, as the positive default already is | not executed | RustCli.ZeroJobsAccepted | RustCli.ParseArgsChecked |
| xor_cryptor.hpp:275 | the decoder starts the walk at `(*byte_order)[0]` even when the header lists no group (`C++/xor_cryptor.hpp` does the same with `order[0]`) | the empty input: `encrypt_bytes` writes the single byte 0, and decoding it indexes an empty vector | decode an empty header to the empty output, so that the round trip holds for every input | not executed | NibbleCodec.EmptyLost | NibbleCodec.RoundTripFixed |
