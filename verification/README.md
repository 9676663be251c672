# Verified model of leancrypto's AEAD modes and image signing

leancrypto (<https://leancrypto.org>) is a C library of cryptographic algorithms with a Linux kernel
integration and command-line tools. This project models four of its stateful components in Dafny and
proves what they compute, for every key, message, chunking and buffer overlap the code allows:

* **AES-GCM** (`aead/src/gcm.c`): the 4-bit multiplication tables, the table-driven GHASH
  multiplication, the byte-granular update machine and the tag, against NIST SP 800-38D.
* **PE/COFF image signing** (`apps/src/image.c`): the header parser, the hashed regions, the padding
  reparse, the certificate table and the checksum, through the whole load, add, remove, write cycle.
* **Ascon AEAD** (`aead/src/ascon.c` and its two instances): the lazily permuted sponge, encryption
  and the three decryption paths, against section 4.1 of NIST SP 800-232; and the segment-by-segment
  associated data absorber of the kernel.
* **Key stream and MAC framing**: the cSHAKE AEAD over whole runs of messages, the Poly1305 input of
  ChaCha20-Poly1305 against section 2.8 of RFC 7539, and the kernel's two-cursor update loop.

## How the model is built

Contexts are classes with the source's fields, buffers are arrays, and the methods are the source's
loops. Where input and output may be the same buffer, the methods take an array and an offset for
each and allow the two areas to be equal (`XorOps.SameOrApart`). Each method is proved against a
function on values that processes one byte at a time; lemmas then prove that these functions, for
any division of the data into calls, are what the standard says. The standards are written down on
their own, block by block (`GcmSpec`, `Gf128.Product`, `AsconSpec`, `ChachaFraming.MacData`,
`ImageChecksum.PeChecksum`), and a second time in closed form, byte by byte and from the primitives and
plain numbers alone (`GcmAead`, `AsconAead`, `ChachaPoly.CipherByte`, `PeFields`). The one-shot calls are
specified by the second; lemmas prove that both agree.

AES, the sponge permutation, the extendable-output function, the keyed digest, the ChaCha20 block
function and Poly1305 are function parameters: everything proved holds for all of them.

| files | contents |
|---|---|
| `Bytes`, `Octet`, `Endian`, `Errno`, `XorOps`, `Keystream` | byte strings, integers as bytes, error numbers, in-place XOR, key streams |
| `Gf128`, `Gf128Unit`, `GcmWords`, `GcmTables` | GF(2^128), its 64-bit word form, the tables and the multiplication |
| `GcmSpec`, `GcmStream`, `GcmChunks`, `GcmRuns`, `GcmIv`, `GcmIvPairs`, `GcmNoData`, `GcmAead`, `Gcm` | SP 800-38D, the streaming machine, its runs, closed forms, the class |
| `Sponge`, `AsconSpec`, `AsconStream`, `AsconRuns`, `AsconAead`, `Ascon` | SP 800-232, the lazy sponge, its runs, closed forms, the class |
| `Scatter`, `KernelUpdate`, `KernelAscon`, `KernelGcm` | scatter lists and the kernel loops |
| `CshakeRuns`, `CshakeCrypt`, `ChaCha20`, `ChachaFraming`, `ChachaPoly` | the key stream and MAC layers |
| `SigTable`, `PeLayout`, `PeFields`, `ImageRegions`, `ImageCover`, `ImageChecksum`, `ImageCycle`, `ImageRuns`, `Image` | image signing |

## Where the code and its documentation or standard differ

Each of these is a theorem, with the exact condition or a concrete input.

* `gcm_setiv` writes a 32-bit length and XORs only as many of its bytes as the last piece of the IV
  had. The pre-counter block is that of SP 800-38D for all hash subkeys exactly for 12-byte IVs and
  for multiples of 16 bytes with a bit length below 2^32 (`GcmIv.J0Exactly`); the empty IV, which the
  standard does not admit, is one of these. An IV and the same IV with a zero byte behind it can get
  one and the same pre-counter block. For which lengths they do so under all hash subkeys is stated
  exactly (`GcmIvPairs.ZeroByteExactly`): the empty IV; and of those whose last piece has u > 0 bytes,
  11 and 12 bytes apart, all with u < 12 and those with u of 12, 13 or 14 for which byte u - 12 of the
  32-bit length of the longer one is zero, such as 13, 14 and 30 bytes (`GcmIvPairs.SomeLengths`).
* A partial block of associated data is closed only inside an update call. A final without one gives
  the standard's tag, for all subkeys and all associated data of a length, exactly if that length is a
  multiple of 16 (`GcmNoData.NoUpdateExactly`). `lc_kernel_aead_update` makes no call when there are
  no data, so this is what the kernel computes for authentication only.
* The guard of `gcm_enc_update` admits 2^32 - 1 blocks, one more than section 5.2.1.1 of SP 800-38D:
  all updates are accepted exactly up to 128 bits above that limit (`GcmRuns.GuardExactly`). The
  theorems go as far as the guard, and the counter blocks are still distinct there
  (`GcmRuns.CountersNeverRepeat`); the standard itself makes no statement about that last block.
* `lc_aes_gcm_enc` ignores the error of `lc_aes_gcm_aad`. There is one exactly if an empty segment
  stops the cursor within the associated data; those before that segment have been added then and the
  others are dropped (`KernelGcm.GcmAad`, and `KernelGcm.EmptySegmentCuts` for a list on which it
  happens), so that the tag covers only the first (`KernelGcm.GcmRequest`).
* The comment on `gcm_enc_update` asks for all but the last call to be a multiple of 16 bytes; any
  division works (`GcmRuns.EncryptionMeetsStandard`).
* Ascon skips the domain separation bit when there are no associated data; the associated data phase
  is the standard's exactly if there are some (`AsconRuns.AadExactly`).
* ChaCha20-Poly1305 adds a whole block of zeros where RFC 7539 adds none, and pads the associated
  data again in every update call before the first byte of data. The Poly1305 input is the RFC's
  exactly under the condition of `ChachaFraming.RunIsRfcExactly`, and two chunkings of one message
  agree exactly under that of `ChachaFraming.ChunkingMatters`.
* `lc_chacha20_poly1305_setkey` clears the block counter before it looks at the length of the IV. An IV
  it refuses leaves the key stream of the nonce before it, from block 0 on, the block of the Poly1305
  key (`ChachaPoly.RefusedIvRewinds`); with an accepted IV it does not come to that block
  (`ChachaPoly.BlockZeroUnused`).
* The MAC of the cSHAKE AEAD is fed associated data and ciphertext with nothing between them. Two
  messages have the same tag under every digest exactly if they are the same bytes cut differently
  (`CshakeRuns.TagsAgreeExactly`), which associated data of one length rule out
  (`CshakeRuns.EqualLengthsInjective`).
* `image_find_regions` warns of gaps between the sections and goes on. It then takes the rest of the
  file to begin where the sections would end without the gap, so that bytes are hashed twice and those
  of the gap not at all (`ImageRegions.GapHashedTwice`). No byte is hashed twice, and every byte is
  hashed, exactly if there is no gap (`ImageRegions.DisjointExactly`, `ImageRegions.HashedExactly`).
  For images whose sections also overlap each other or the headers the exact conditions are
  `ImageCover.DisjointAlways` and `ImageCover.HashedAlways`.
* `image_remove_signature` takes the aligned size of the entry off the table even if the entry is the
  last one and overruns the table, as a table of unaligned size found in a file can have it. It then
  cuts off bytes of the entries before it (`ImageCycle.RemoveCutsPrevious`), or the size wraps and the
  call fails. The other entries stay as they are exactly if the entry is the first or does not overrun
  the table (`ImageCycle.RemoveExactly`), which holds in every table made of signatures.
* `image_load` accepts a table with a header whose size field is 0. Removing that entry succeeds and
  deletes nothing (`ImageCycle.RemoveDeletes`), and counting the signatures as `sbsign.c` does comes to
  an end exactly if no such header is reached (`SigTable.EnumerationEnds`).
* The checksum that `image_pecoff_update_checksum` sums up around the field it skips is the PE
  checksum exactly if the field is at an even offset (`ImageChecksum.ChecksumExactly`).
* All one-shot decryptions put the plaintext out before they know whether the tag is right; the
  contracts say what is put out in either case.
* `lc_ascon_load_key` takes keys shorter than 64 bytes only (`Ascon.Cryptor.LoadKey`), so the
  64-byte key of Ascon-Keccak 512 has to be given to setkey directly.

## Model

| member | source | states |
|---|---|---|
| GcmWords.HalveIsTimesX | aead/src/gcm.c:384-391 | one pass of the halving loop on two 64-bit words is multiplication by x with the reduction polynomial of section 6.3 of SP 800-38D |
| GcmWords.NibbleIsTimesX4 | aead/src/gcm.c:242-248 | a shift by four bits with the last4 lookup is four multiplications by x, for all 16 remainders |
| GcmTables.EntryXor | aead/src/gcm.c:392-402 | the entry for the exclusive or of two indices is the sum of their entries |
| GcmTables.TableXor | aead/src/gcm.c:379-402 | the same for the tables as stored: T[i xor j] = T[i] xor T[j] |
| GcmTables.EntryHalved | aead/src/gcm.c:384-391 | halving entry 8, 4 or 2 gives the entry of half the index |
| GcmTables.FillPowers | aead/src/gcm.c:379-391 | after the halving loop entries 0, 1, 2, 4 and 8 are H times 0, x^3, x^2, x and 1 |
| GcmTables.FillAbove | aead/src/gcm.c:392-402 | one pass of the doubling loop completes the entries below 2i and leaves those from 2i on |
| GcmTables.BuildTables | aead/src/gcm.c:379-402 | all 16 entries are H times the polynomial with the bits of the index as coefficients |
| GcmTables.HornerStep | aead/src/gcm.c:242-251 | one table step extends the sum over the bits of x by four |
| GcmTables.GcmMult | aead/src/gcm.c:205-308 | on those tables the output is the bit-by-bit product x times H of section 6.3, also with output equal to x |
| Gf128.ProductIsSum | aead/src/gcm.c:194-204 | the loop of section 6.3 is the sum of the multiples of y selected by the bits of x |
| Gf128.ProductLinear | aead/src/gcm.c:194-204 | the product is linear in its first factor |
| Gf128.SumNibble | aead/src/gcm.c:237-305 | a nibble contributes its table entry and the rest is multiplied by x^4: the Horner step |
| Gf128.ProductZero | aead/src/gcm.c:782-796 | zero times H is zero, which makes skipping the length block of the empty message sound |
| Gf128Unit.ProductOne | aead/src/gcm.c:379-380 | entry 8 stands for 1: multiplying by it changes nothing |
| GcmSpec.CarryIncIsInc32 | aead/src/gcm.c:638-641 | the byte-carry loop is inc32 of section 6.2 |
| GcmSpec.CountersDistinct | aead/src/gcm.c:638-641 | fewer than 2^32 increments apart, two counter blocks differ |
| GcmStream.AbsorbAppend | aead/src/gcm.c:533-568 | absorbing in two pieces is absorbing the concatenation, from any position in the block |
| GcmStream.AbsorbIsGhash | aead/src/gcm.c:555-563 | absorbing whole blocks is GHASH of section 6.4 |
| GcmStream.ClosedIsPadded | aead/src/gcm.c:588-592 | multiplying an open partial block later is padding it with zeros |
| GcmStream.AadRunOpens | aead/src/gcm.c:533-568 | after any gcm_aad calls the context depends on the concatenated data only |
| GcmStream.UpdateSeals | aead/src/gcm.c:579-670 | an update continues the key stream at the running length and hashes the ciphertext, on either side |
| GcmChunks.CryptIsPiece | aead/src/gcm.c:608-669 | the byte machine on a piece within a block is one counter increment at most, one XOR and one hash step |
| GcmChunks.CryptNext | aead/src/gcm.c:608-669 | a loop that has taken some bytes continues with the next piece |
| GcmRuns.GctrIsStreamXor | aead/src/gcm.c:579-670 | GCTR of section 6.5 is the key stream read byte by byte |
| GcmRuns.EmptyTag | aead/src/gcm.c:782-796 | the tag of the empty message is the enciphered pre-counter block |
| GcmRuns.FinalIsTag | aead/src/gcm.c:767-801 | the final gives the tag of section 7.1 on the associated data and ciphertext so far |
| GcmRuns.EncryptionMeetsStandard | aead/src/gcm.c:533-801 | any gcm_aad calls, at least one gcm_enc_update and a final, up to the length guard: ciphertext and tag are those of section 7.1 on the concatenations |
| GcmRuns.DecryptionInvertsEncryption | aead/src/gcm.c:672-844 | with independent chunkings decryption returns the plaintext, ends with equal hash, counter, lengths and key stream block, and accepts the tag |
| GcmRuns.CountersNeverRepeat | aead/src/gcm.c:594-645 | an accepted run uses ceil(len/16) counter blocks, all different and none the pre-counter block |
| GcmRuns.RejectionIsFinal | aead/src/gcm.c:599-606 | after a rejected update every later one is rejected and puts out zeros, until the 64-bit length wraps |
| GcmRuns.GuardExactly | aead/src/gcm.c:599-606 | all updates of a run are accepted exactly if the data are at most 128 bits above the limit of section 5.2.1.1 |
| GcmIv.IvLoopIsGhash | aead/src/gcm.c:456-466 | the loop over the IV is GHASH of the IV padded with zeros |
| GcmIv.SetIvOpens | aead/src/gcm.c:422-442 | setting an IV resets a used context to the fresh state |
| GcmIv.J0Conforms | aead/src/gcm.c:437-471 | the pre-counter block is that of section 7.1 for the conforming lengths |
| GcmIv.J0Deviates | aead/src/gcm.c:453-470 | for every other length it is not, with a concrete hash subkey |
| GcmIv.J0Exactly | aead/src/gcm.c:437-471 | both directions for all hash subkeys |
| GcmIvPairs.LengthsCollide | aead/src/gcm.c:447-470 | the lengths XORed in for n and n + 1 bytes are equal exactly if the last piece has less than 15 bytes and, from 12 on, the next byte of the longer length is zero |
| GcmIvPairs.ZeroByteCollides | aead/src/gcm.c:437-470 | an IV with an open last piece and the IV with a zero byte behind it have equal pre-counter blocks under every subkey exactly for the lengths that collide |
| GcmIvPairs.ZeroByteExactly | aead/src/gcm.c:437-470 | for every length: all IVs of it share their pre-counter blocks in that way under every subkey exactly if the length collides |
| GcmIvPairs.SomeLengths | aead/src/gcm.c:437-470 | 1, 13, 14 and 30 collide; 11, 12, 15 and 16 do not |
| GcmNoData.AlignedTag | aead/src/gcm.c:767-801 | without an update call the tag is the standard's if the associated data end on a block boundary: one half of NoUpdateExactly |
| GcmNoData.OpenTagDeviates | aead/src/gcm.c:588-592 | for every other length there are a subkey and associated data for which it is not, for any cipher and tag length: the other half |
| GcmNoData.NoUpdateExactly | aead/src/gcm.c:767-801 | without an update call the tag is the standard's for all subkeys and all associated data of a length, however cut, exactly if the length is a multiple of 16 |
| GcmNoData.SetIvStarts | aead/src/gcm.c:422-477 | a context with an IV set is one these results begin with |
| GcmAead.SubkeyIs | aead/src/gcm.c:334-347 | the hash subkey is the enciphered block of sixteen zero bytes |
| GcmAead.HashIs | aead/src/gcm.c:533-568 | hashing from the front with the multiplication by the subkey is the sum of products taken from the back |
| GcmAead.PreCounterIs | aead/src/gcm.c:437-471 | the pre-counter block from the cipher and the IV alone |
| GcmAead.CounterIs | aead/src/gcm.c:638-641 | the counter block after i increments, with the last four bytes as a number |
| GcmAead.EncryptionIs | aead/src/gcm.c:828-835 | for every cipher and message, each byte of ciphertext and tag of section 7.1 in closed form |
| GcmAead.TagVerdict | aead/src/gcm.c:813-826 | a tag is the standard's exactly if each of its bytes is |
| Gcm.Cryptor.SetKey | aead/src/gcm.c:317-407 | the tables are those of the block of 128 zero bits enciphered under the key given; other key lengths are refused without effect |
| Gcm.Cryptor.SetIv | aead/src/gcm.c:409-477 | the context becomes the fresh one for this IV; without an IV nothing changes |
| Gcm.Cryptor.AddAad | aead/src/gcm.c:533-568 | gcm_aad is the associated data step of the machine |
| Gcm.Cryptor.IncCounter | aead/src/gcm.c:638-641 | the loop with its early exit leaves inc32 of the counter |
| Gcm.Cryptor.EncPiece | aead/src/gcm.c:613-664 | one round: encrypt, then hash the output, in place or apart |
| Gcm.Cryptor.DecPiece | aead/src/gcm.c:697-752 | one round: hash the input, then decrypt over it |
| Gcm.Cryptor.EncUpdate | aead/src/gcm.c:579-670 | the loop is the machine's update, with the length guard and the zeroed output |
| Gcm.Cryptor.DecUpdate | aead/src/gcm.c:672-758 | the same for decryption, which has no guard |
| Gcm.Cryptor.EncFinal | aead/src/gcm.c:767-801 | the tag of the machine, or no effect for tag lengths outside 8 to 16 |
| Gcm.Cryptor.DecFinal | aead/src/gcm.c:813-826 | 0 exactly if the tag is the recomputed one; below 8 bytes nothing is computed, and a tag of no bytes is accepted |
| Gcm.Cryptor.SetKeyIv | aead/src/gcm.c:479-491 | a fresh context under the key, or the one set before, whose pre-counter block is that of section 7.1 under the same cipher for conforming IVs; without an IV only the key is set |
| Gcm.Cryptor.Encrypt | aead/src/gcm.c:828-835 | one shot, in place or apart: each byte of ciphertext and tag is that of section 7.1 under the block cipher with the key set |
| Gcm.Cryptor.Decrypt | aead/src/gcm.c:837-844 | one shot: the plaintext enciphers to the ciphertext, and 0 is returned exactly if each byte of the tag is that of section 7.1, otherwise -74 |
| PeLayout.ParseStable | apps/src/image.c:220-336 | a buffer that differs in checksum, certificate entry or past the section table only parses to the same layout |
| PeLayout.LayoutShape | apps/src/image.c:220-336 | the checksum, the certificate entry and the section table lie in this order within the buffer |
| PeFields.ParseExactly | apps/src/image.c:220-336 | an image parses to a layout exactly if its headers say so, field by field in offsets and numbers |
| PeFields.OutsideExactly | apps/src/image.c:220-336 | the inputs on which the header parser would read beyond the buffer |
| ImageRegions.SoundRegions | apps/src/image.c:365-478 | the regions and the data size of an image whose sections, in any order and with any gaps, are apart from the headers and each other |
| ImageRegions.SortIsPermutation | apps/src/image.c:338-354 | sorting keeps the regions and orders them by offset |
| ImageRegions.FilledSections | apps/src/image.c:401-415 | the sections with any bytes in them, and no others, become regions |
| ImageRegions.RegionsAddUp | apps/src/image.c:365-458 | for every layout, region sizes plus 12 plus the certificate table make up the file exactly if headers, sections and table are not counted to more than its size |
| ImageRegions.DisjointExactly | apps/src/image.c:365-458 | when headers, sections and certificate table fit and are apart, no byte is hashed twice exactly if there is no gap |
| ImageRegions.HashedExactly | apps/src/image.c:547-577 | then, too, what is hashed is the file without checksum, certificate entry and table, for all files of that size, exactly if there is no gap |
| ImageCover.DisjointAlways | apps/src/image.c:365-458 | for every layout with sane headers whose sections end before the certificate table: no byte is hashed twice exactly if headers and sections are apart and no section ends beyond the running count |
| ImageCover.HashedAlways | apps/src/image.c:547-577 | for every layout whose headers and table fit and whose sections lie in the file: what is hashed is the file without the fields and the table, for all files of that size, exactly if there is no gap and headers, sections and table fit |
| ImageRegions.GapHashedTwice | apps/src/image.c:447-458 | one section behind a gap: it is hashed twice and the gap not at all |
| ImageRegions.RegionsPartition | apps/src/image.c:365-478 | without gap, when all fits, region sizes plus 12 plus the certificate table make up the file and the regions follow each other |
| ImageRegions.HashedIsSkip | apps/src/image.c:547-577 | without gap, the concatenated regions are the file without checksum, certificate entry and certificate table |
| ImageCycle.SecondPassFits | apps/src/image.c:493-526 | image_load reparses at most once on every input; the data size is then a multiple of 8 within the buffer |
| ImageCycle.LoadedIsPadded | apps/src/image.c:493-526 | whatever file is loaded, the buffer is the file and zero bytes behind it, and the data lie within |
| ImageCycle.CertExactly | apps/src/image.c:309-330 | when a certificate table is read, with the revision and type in bytes; of another kind it is left unread |
| ImageCycle.RemoveIsWithout | apps/src/image.c:646-683 | on a table of signatures, removal deletes exactly the one asked for and keeps the order |
| ImageCycle.RemoveExactly | apps/src/image.c:657-676 | on any table, all other entries stay as they are exactly if the entry is the first one or does not reach beyond the table |
| ImageCycle.RemoveCutsPrevious | apps/src/image.c:657-676 | a table of 17 bytes of which removing the last entry leaves one byte of the first |
| ImageCycle.RemoveDeletes | apps/src/image.c:657-676 | it removes anything exactly if the size in the header is not 0 |
| Image.CutTableInBounds | apps/src/image.c:632-640 | that table is walked within its bounds |
| ImageCycle.RepresentsHash | apps/src/image.c:547-577 | an image that represents an original hashes the original's bytes, with or without gaps |
| ImageRuns.LoadOriginal | apps/src/image.c:484-530 | a well-formed unsigned file loads as itself padded as far as its data size asks for, with no signatures |
| ImageRuns.LoadedBytes | apps/src/image.c:484-530 | from the file alone: its bytes and zeros up to the next multiple of 8 of its size, or of where its sections end |
| ImageRuns.SmallImage | apps/src/image.c:484-530 | an image of 1001 bytes with one section is well-formed and loads with seven zero bytes behind it |
| ImageRuns.WrittenChecksum | apps/src/image.c:187-218 | the checksum in a written file is the PE checksum of that file if the field is at an even offset |
| ImageRuns.WrittenExactly | apps/src/image.c:187-218 | for all files of one size and all tables it is, exactly if the field is at an even offset |
| ImageRuns.WrittenReloads | apps/src/image.c:685-726 | writing and loading again gives the same data and the same signatures |
| ImageRuns.WrittenCarries | apps/src/image.c:685-726 | a written file is the original but for its two fields, followed by the table of the signatures |
| ImageRuns.WriteKeeps | apps/src/image.c:685-726 | writing without loading again keeps the representation |
| ImageRuns.StepKeeps | apps/src/image.c:579-726 | adding, removing, writing, and writing with reloading each keep the representation |
| ImageRuns.RunKeeps | apps/src/image.c:579-726 | so does every sequence of them, from any list of signatures on |
| ImageRuns.RunEnds | apps/src/image.c:547-726 | such a sequence ends with the hashed bytes of the original and the table of the list it describes |
| ImageRuns.SigningKeepsHash | apps/src/image.c:484-726 | with or without gaps, after every sequence the hashed bytes are the same as at the start, and the table is exactly the list of signatures added and not removed |
| ImageRuns.SigningAgainKeepsHash | apps/src/image.c:484-726 | the same from a file that carries signatures already, with these at the head of the list |
| ImageRuns.NoGapReaches | apps/src/image.c:470-478 | without gaps the sections end within the padded file, whose size is the larger of file and sections rounded up to 8 |
| ImageRuns.SigningPreservesHash | apps/src/image.c:484-726 | without gaps, after every sequence the hashed bytes are those of the padded original without its two fields |
| ImageRuns.SignedFileHash | apps/src/image.c:484-726 | from the file alone, without gaps: the hashed bytes after every sequence are the file without its two fields, and zeros to the multiple of 8 |
| ImageRuns.SomeRunFits | apps/src/image.c:579-726 | adding, writing with reloading and removing is a sequence these results cover |
| SigTable.WalkIsOffset | apps/src/image.c:621-644 | the header walk reaches the offset of entry i in every table |
| SigTable.EnumerationEnds | apps/src/sbsign.c:401-404 | on a table whose headers lie within it, counting up ends exactly if no header of size 0 is reached |
| SigTable.TableEnumerates | apps/src/image.c:579-619 | tables made of signatures are of that kind |
| SigTable.EntryFields | apps/src/image.c:579-619 | at that offset are the length, the revision 0x0200 and the type 2 of entry i, followed by its bytes and zeros up to the next entry |
| SigTable.TableWithout | apps/src/image.c:646-683 | cutting the bytes of an entry out of a table is the table of the list without it |
| SigTable.DecodeTable | apps/src/image.c:579-644 | reading a table back gives the list of signatures |
| ImageChecksum.UpdateFoldIsFold | apps/src/image.c:164-169 | adding a word to a folded sum is folding the whole sum, and stays within 16 bits |
| ImageChecksum.WordSumAppend | apps/src/image.c:171-185 | the word sum adds up over pieces of even length |
| ImageChecksum.WordSumIsWeighted | apps/src/image.c:171-185 | it counts the bytes at even offsets once and those at odd ones 256 times |
| ImageChecksum.CsumBytes | apps/src/image.c:171-185 | the loop folds the little-endian word sum, an odd last byte included |
| ImageChecksum.PieceSumIsFileSum | apps/src/image.c:187-218 | the sum over the pieces around an even field is the sum over the file with that field cleared |
| ImageChecksum.OddWitnessDiffers | apps/src/image.c:187-218 | for every odd field a file on which the two differ |
| ImageChecksum.ChecksumExactly | apps/src/image.c:187-218 | they agree on all files exactly if the field is even |
| Image.Image.FindRegions | apps/src/image.c:356-482 | the loops leave the sorted regions and the data size of the layout |
| Image.Image.Parse | apps/src/image.c:220-336 | the fields are set from the headers, or the image is refused |
| Image.Image.Load | apps/src/image.c:484-530 | the reparse loop leaves the value of Load; the buffer begins with the file and goes on with zero bytes |
| Image.Image.AddSignature | apps/src/image.c:579-619 | the grown buffer is the old one with the 8-aligned entry appended |
| Image.Image.GetSignature | apps/src/image.c:621-644 | the walk finds the bytes of the asked-for signature, or ENODATA at the end |
| Image.Image.RemoveSignature | apps/src/image.c:646-683 | the buffer is what the subtraction leaves: the old one without that entry if it does not overrun the table; ENOMEM with the wrapped size if more is taken off than there is |
| Image.Image.CountSignatures | apps/src/sbsign.c:401-404 | counting up ends on every table whose headers lie within it and have a size; on a table made of signatures it visits exactly those |
| Image.NthSignature | apps/src/image.c:621-644 | the bytes found for i are the i-th signature of the list |
| Image.Image.UpdateChecksum | apps/src/image.c:187-218 | the checksum field is the folded sum of the pieces plus the length |
| Image.Image.Write | apps/src/image.c:685-726 | what is written is the stamped data followed by the table |
| AsconStream.CryptAppend | aead/src/ascon.c:195-228 | two calls are one call on the concatenation |
| AsconStream.CryptReady | aead/src/ascon.c:203-227 | permuting a full rate early or late makes no difference to later output and state |
| AsconStream.CryptIsPiece | aead/src/ascon.c:203-212 | a piece within the rate, byte by byte, is one addition to or one overwrite of the state |
| AsconStream.Lockstep | aead/src/ascon.c:273-342 | either side fed the other's output from an equal state ends in an equal state with the other's input |
| AsconStream.CryptNext | aead/src/ascon.c:203-227 | a loop, entered with a full rate or not, takes its next piece |
| AsconRuns.EncryptIsCrypt | aead/src/ascon.c:195-253 | the byte machine with the pad is the block-wise encryption of section 4.1 of SP 800-232 |
| AsconRuns.AadExactly | aead/src/ascon.c:138-167 | the associated data phase is the standard's exactly if there are associated data |
| AsconRuns.RunIsCrypt | aead/src/ascon.c:203-227 | state and rate offset depend on the concatenated data only |
| AsconRuns.FinalizeIsTag | aead/src/ascon.c:170-192 | the finalization leaves the tag of section 4.1 |
| AsconRuns.EncryptionMeetsStandard | aead/src/ascon.c:138-253 | for every chunking ciphertext and tag are those of section 4.1, given associated data |
| AsconRuns.DecryptionInvertsEncryption | aead/src/ascon.c:273-371 | with any two chunkings: equal states, the plaintext back, the same tag |
| AsconAead.AbsorbIsAfter | aead/src/ascon.c:138-167 | absorbing associated data is taking the padded data block by block with the rounds after each |
| AsconAead.AssociateIsWithData | aead/src/ascon.c:138-167 | then the last bit of the state is flipped |
| AsconAead.CiphertextIs | aead/src/ascon.c:195-253 | a byte of the ciphertext is that of the plaintext XORed with the state before its block |
| AsconAead.LastIs | aead/src/ascon.c:230-253 | the finalization begins with the last padded block added and no rounds after it |
| AsconAead.EncryptionIs | aead/src/ascon.c:195-253 | for every permutation and message, each byte of ciphertext and tag of section 4.1 in closed form |
| AsconAead.TagVerdict | aead/src/ascon.c:345-371 | a tag is the right one exactly if each of its bytes is |
| Ascon.LightweightIv | aead/src/ascon_lightweight.c:34 | the fields of the first word: version, rounds, tag bits and rate as in NIST SP 800-232 |
| Ascon.KeccakIv | aead/src/ascon_keccak.c:195-259 | those of the Keccak instances: tag length, rounds, rate and key length |
| Ascon.Cryptor.LoadKey | aead/api/lc_ascon_aead.h:57-66 | a key below 64 bytes is stored, others are refused without effect |
| Ascon.Cryptor.SetIv | aead/src/ascon_keccak.c:195-259 | the instance's length checks and first state word |
| Ascon.Cryptor.SetKey | aead/src/ascon.c:65-135 | IV, key, nonce and zeros, permuted with twelve rounds, the key added at the end; the accepted and refused lengths in numbers, the cleared context after a refusal, and the loaded key when none is given |
| Ascon.Cryptor.AddPadByte | aead/api/lc_ascon_aead.h:72-87 | the pad byte goes to the offset, or to 0 after a full rate |
| Ascon.Cryptor.Aad | aead/src/ascon.c:138-167 | the block loop and its tail are the associated data step, nothing for empty data |
| Ascon.Cryptor.EncUpdate | aead/src/ascon.c:195-228 | the loop terminates and is the machine's encryption, in place or apart |
| Ascon.Cryptor.DecPieceApart | aead/src/ascon.c:294-337 | replacing the rate, or adding the plaintext back to it, leaves the ciphertext in the state |
| Ascon.Cryptor.DecPieceInPlace | aead/src/ascon.c:284-337 | the same by way of the temporary buffer when input and output are one area |
| Ascon.Cryptor.DecUpdate | aead/src/ascon.c:273-342 | the loop is the machine's decryption |
| Ascon.Cryptor.Finalization | aead/src/ascon.c:170-192 | the state and the tag of the finalization |
| Ascon.Cryptor.EncFinal | aead/src/ascon.c:230-253 | the tag after the pad; for another tag length only the last permutation |
| Ascon.Cryptor.DecFinal | aead/src/ascon.c:345-371 | 0 exactly for the recomputed tag, EBADMSG otherwise, EINVAL for another tag length |
| Ascon.Cryptor.Encrypt | aead/src/ascon.c:256-270 | one shot: each byte of ciphertext and tag in terms of the permutation and its round counts, as section 4.1 has them, the associated data phase left out if empty |
| Ascon.Cryptor.Decrypt | aead/src/ascon.c:374-388 | one shot: the plaintext encrypts to the ciphertext, and 0 is returned exactly if each byte of the tag is right, -74 otherwise, -22 for another tag length |
| KernelAscon.AsconAad | linux_kernel/leancrypto_kernel_aead_ascon.c:34-93 | for every segmentation, empty segments included, the sponge state is that of lc_ascon_aad on the flattened data |
| KernelUpdate.Request.Update | linux_kernel/leancrypto_kernel_aead_helper.c:22-102 | for any two segmentations the effect is one call on the flattened data; for a process that does not fail, an error exactly if an empty segment stops a cursor in the data, with the effect of the data before that segment; it terminates |
| KernelUpdate.Request.Call | linux_kernel/leancrypto_kernel_aead_helper.c:53-60 | one call on the bytes both cursors offer extends the effect by them |
| KernelUpdate.Request.Round | linux_kernel/leancrypto_kernel_aead_helper.c:49-67 | one pass of the loop keeps both cursors in step and the effect that of one call, or ends at an empty segment that stops a cursor |
| KernelUpdate.Request.EffectOnMemory | linux_kernel/leancrypto_kernel_aead_helper.c:37-67 | the destination holds the output and every other byte is untouched |
| KernelUpdate.OneListIsCompatible | linux_kernel/leancrypto_kernel_aead_helper.c:37-67 | one list whose bytes are all different may be source and destination |
| KernelAscon.AsconIsChunked | linux_kernel/leancrypto_kernel_aead_ascon.c:129-131 | the update functions of Ascon are chunk-independent |
| KernelGcm.GcmIsChunked | linux_kernel/leancrypto_kernel_aes_gcm.c:118-124 | so are those of AES-GCM, encryption as long as the request stays within the length limit |
| KernelGcm.GcmAad | linux_kernel/leancrypto_kernel_aes_gcm.c:39-81 | an error exactly if an empty segment stops the cursor; the associated data before that segment, or else all of them, are added as by one gcm_aad call |
| KernelGcm.EmptySegmentCuts | linux_kernel/leancrypto_kernel_aes_gcm.c:56-73 | eight bytes with an empty segment in the middle: the cursor stops after four |
| KernelGcm.GcmRequest | linux_kernel/leancrypto_kernel_aes_gcm.c:104-167 | a request gives the ciphertext of section 7.1, the tag over the associated data added, unless no data follow a partial block of them, and over the ciphertext the plaintext and acceptance |
| GcmChunks.UpdateAppend | aead/src/gcm.c:579-758 | two updates within the limit are one on the concatenation, on either side |
| KernelAscon.AsconRequest | linux_kernel/leancrypto_kernel_aead_ascon.c:116-176 | a request leaves the standard's ciphertext and one over it the plaintext, without error |
| Scatter.SpreadGather | linux_kernel/leancrypto_kernel_aead_helper.c:37-67 | what is stored over segments is read back through them |
| Scatter.AddrIn | linux_kernel/leancrypto_kernel_aead_helper.c:37-67 | byte o of segment i is at its address plus o, behind the lengths of the segments before it |
| Scatter.Walk.Next | linux_kernel/leancrypto_kernel_aead_helper.c:49-54 | the cursor offers consecutive addresses of the bytes at its position; nothing only after moving to an empty segment |
| Scatter.Walk.AtEmpty | linux_kernel/leancrypto_kernel_aead_helper.c:56-57 | a cursor offered nothing is stopped there, at an empty segment that begins within the data, and by none before it |
| Scatter.StuckAtOne | linux_kernel/leancrypto_kernel_aead_helper.c:56-57 | a cursor is stopped at one position only, within the data |
| Scatter.Walk.NeverStuck | linux_kernel/leancrypto_kernel_aead_helper.c:56-57 | a cursor that reached a position was stopped by none before it |
| Scatter.NoEmptyNeverStuck | linux_kernel/leancrypto_kernel_aead_helper.c:56-57 | a list without empty segments stops no cursor |
| CshakeRuns.UpdatesIsUpdate | aead/src/cshake_crypt.c:531-562 | any division of the data into calls is one call |
| CshakeRuns.ProcessIs | aead/src/cshake_crypt.c:575-590 | a message leaves the MAC empty for the next one |
| CshakeRuns.RunIsOneStream | aead/src/cshake_crypt.c:531-562 | over a whole run of messages the output is the input XORed with one stretch of key stream: no byte is used twice |
| CshakeRuns.KeystreamUse | aead/src/cshake_crypt.c:496-516 | output byte k of the run is input byte k XORed with key stream byte 32 + k |
| CshakeRuns.TagsCoverOneMessage | aead/src/cshake_crypt.c:575-590 | each tag is the digest of the associated data and ciphertext of its own message alone |
| CshakeRuns.RunFromKey | aead/src/cshake_crypt.c:496-590 | over every run from setkey on: each tag is the digest of its message under bytes 0 to 31 of the stream, and the data are XORed with bytes from 32 on only |
| CshakeRuns.ShiftedExactly | aead/src/cshake_crypt.c:564-590 | two messages are fed to the MAC as the same bytes exactly if one has moved bytes from its ciphertext to its associated data |
| CshakeRuns.TagsAgreeExactly | aead/src/cshake_crypt.c:575-590 | their tags are equal under every digest exactly then |
| CshakeRuns.EqualLengthsInjective | aead/src/cshake_crypt.c:564-590 | with associated data of one length only for equal messages |
| CshakeRuns.DecryptionInvertsEncryption | aead/src/cshake_crypt.c:621-658 | both sides stay synchronized over the run with independent chunkings: plaintexts, tags and final state |
| CshakeCrypt.Cryptor.Rekey | aead/src/cshake_crypt.c:478-520 | bytes 0 to 31 of the stream key the MAC and the key stream starts at byte 32 |
| CshakeCrypt.Cryptor.Refill | aead/src/cshake_crypt.c:539-549 | squeezing a new block leaves the stream position as it is |
| CshakeCrypt.Cryptor.Crypt | aead/src/cshake_crypt.c:531-562 | the loop over 136-byte blocks XORs the stream from the current position on, in place or apart |
| CshakeCrypt.Cryptor.Encrypt | aead/src/cshake_crypt.c:621-639 | encrypt, then MAC the ciphertext |
| CshakeCrypt.Cryptor.Decrypt | aead/src/cshake_crypt.c:641-658 | MAC the ciphertext, then decrypt, also in place |
| CshakeCrypt.Cryptor.EncryptTag | aead/src/cshake_crypt.c:575-590 | the tag of what was fed since the last one |
| CshakeCrypt.Cryptor.DecryptAuthenticate | aead/src/cshake_crypt.c:592-619 | 0 exactly for the recomputed tag, with the MAC started anew in either case |
| CshakeCrypt.Cryptor.EncryptOneshot | aead/src/cshake_crypt.c:660-675 | one message: ciphertext, tag over it and the state for the next message |
| CshakeCrypt.Cryptor.DecryptOneshot | aead/src/cshake_crypt.c:677-700 | the plaintext encrypts to the ciphertext, 0 exactly for its tag |
| ChachaFraming.MessageIsFramed | aead/src/chacha20poly1305.c:280-397 | the Poly1305 input of a message depends on associated data, ciphertext and the number of padding calls only |
| ChachaFraming.OnePadCall | aead/src/chacha20poly1305.c:298-307 | non-empty updates, or a single one, pad once |
| ChachaFraming.ChunkingMatters | aead/src/chacha20poly1305.c:298-307 | two chunkings give the same input exactly if there are no associated data or both pad equally often |
| ChachaFraming.BothSidesAgree | aead/src/chacha20poly1305.c:362-397 | sender and receiver with any chunkings: plaintext back, and equal inputs exactly on that condition |
| ChachaFraming.FramedInjective | aead/src/chacha20poly1305.c:310-323 | equal inputs come from equal associated data and ciphertext, for lengths below 2^64 and any chunkings |
| ChachaFraming.RfcExactly | aead/src/chacha20poly1305.c:298-323 | the input padded any number of times is that of section 2.8 of RFC 7539 exactly if the ciphertext does not end on a block boundary and the associated data, if any, are padded as often as the RFC pads them |
| ChachaFraming.RunIsRfcExactly | aead/src/chacha20poly1305.c:298-323 | for every message: exactly if the ciphertext does not end on a block boundary and the associated data, if any, do not either and are padded once |
| ChaCha20.CounterNext | sym/api/lc_chacha20_private.h:71-87 | the carry over the four words adds one modulo 2^128 |
| ChaCha20.FollowsInBlock | sym/src/chacha20.c:231-257 | taking bytes of the block begun leaves a state that puts out the rest of the same key stream |
| ChaCha20.FollowsNextBlock | sym/src/chacha20.c:270-286 | so does a new block of which only a part is taken |
| ChaCha20.BlocksMeetRfc | sym/src/chacha20.c:131-229 | block j of the stream of a nonce has the counter and the nonce of section 2.4 of RFC 7539 exactly for the first 2^32 - 1 blocks |
| ChaCha20.AheadIsRfc | sym/src/chacha20.c:259-287 | that long the key stream is that section's |
| ChaCha20.NonceWords | aead/src/chacha20poly1305.c:163-166 | the three words of a 96-bit nonce are that nonce as one number |
| ChaCha20.Sym.IncCounter | sym/api/lc_chacha20_private.h:71-87 | the nested carries add one modulo 2^128 |
| ChaCha20.Sym.CryptRemaining | sym/src/chacha20.c:231-257 | what is left of the block is used up first, at the right position |
| ChaCha20.Sym.CryptRound | sym/src/chacha20.c:270-286 | a new block continues the stream |
| ChaCha20.Sym.Crypt | sym/src/chacha20.c:259-287 | any sequence of calls XORs one key stream onto the data, in place or apart |
| ChaCha20.Sym.SetKey | sym/src/chacha20.c:306-330 | a new key drops the rest of the block; other lengths change nothing |
| Keystream.CryptPiece | aead/src/cshake_crypt.c:551-560 | one copy-and-XOR takes the loop on by one piece and leaves the rest of the input as it was |
| ChachaPoly.Cryptor.SetKey | aead/src/chacha20poly1305.c:256-267 | for every combination of key and IV, given, missing or refused: the return code, the ChaCha20 state and the key stream it puts out; after an accepted IV block 1 of its nonce is next and block 0 is the Poly1305 key |
| ChachaPoly.StreamIsRfc | sym/src/chacha20.c:259-287 | from such a state on the data are XORed as section 2.4 of RFC 7539 has it, for as long as its counter counts |
| ChachaPoly.FramedOnce | aead/src/chacha20poly1305.c:292-323 | what a one-shot call authenticates, written out |
| ChachaPoly.BlockZeroUnused | aead/src/chacha20poly1305.c:223-236 | the key stream of a nonce does not come to the block of the Poly1305 key |
| ChachaPoly.RefusedIvRewinds | aead/src/chacha20poly1305.c:223-225 | after a refused IV that block follows the one begun |
| ChachaPoly.Cryptor.AadPad | aead/src/chacha20poly1305.c:292-308 | the padding step of the framing |
| ChachaPoly.Cryptor.Encrypt | aead/src/chacha20poly1305.c:362-379 | the update step with the ciphertext fed after encryption |
| ChachaPoly.Cryptor.Decrypt | aead/src/chacha20poly1305.c:381-397 | the update step with the ciphertext fed before decryption, also in place |
| ChachaPoly.Cryptor.EncryptTag | aead/src/chacha20poly1305.c:310-338 | Poly1305 of the finished frame, truncated to a shorter buffer |
| ChachaPoly.Cryptor.DecryptAuthenticate | aead/src/chacha20poly1305.c:340-360 | 0 exactly if the given bytes of the tag are right, at most 16 of them |
| ChachaPoly.Cryptor.EncryptOneshot | aead/src/chacha20poly1305.c:399-415 | byte i of the ciphertext uses block 1 + i/64 of key and nonce, and the tag is Poly1305 under block 0 over the data padded once |
| ChachaPoly.Cryptor.DecryptOneshot | aead/src/chacha20poly1305.c:417-442 | the plaintext encrypts to the ciphertext in that way, 0 exactly for that tag, otherwise -74 |

## Left out

- The accelerated GHASH multipliers and the CPU feature selection: only the portable path of
  `gcm_mult` and `gcm_setkey` is modelled.
- AES, the Keccak and Ascon permutations, the ChaCha20 block function and Poly1305 themselves: function
  parameters. The accelerated ChaCha20 loops.
- Self-tests, FIPS gating, side-channel markers, zeroization and allocation failures.
- The kernel code for releases before 6.15, page mapping (a page boundary is a segment boundary), and
  the copying of tags to and from the scatter lists. The scatter_walk cursor is written down as the
  kernel documents it; its source is not part of this model.
- `kmac_crypt.c`, `hash_crypt.c`, `symhmac.c`, `symkmac.c`: further instances of the key stream and
  MAC layers.
- Big-endian hosts, and `gcm_aad` calls after the first update.
- File access of the image tools: `Image.Image.Write` returns the bytes it would write. Detached
  signatures, and the section list output.
- The text of the warnings of `image_find_regions`.
- GcmRuns.EncryptionMeetsStandard: needs at least one update call; `GcmNoData` says what happens
  without one. The pre-counter block is given; `GcmIv` relates it to the IV.
- Gcm.Cryptor.DecFinal: for tag lengths up to 16; beyond that the source reads past its own buffer.
- Image.Image.Load: an input on which the code reads outside the buffer, or on which a region size
  would be negative, is called Undefined and nothing is claimed about it.
- Image.Image.GetSignature: the entry headers walked over lie within the table, as they do in every
  table made of signatures (`Image.TableInBounds`); on other tables the code reads outside its buffer.
- Image.Image.RemoveSignature: the same walk. An allocation whose size has wrapped below zero is taken
  to fail, and one of no bytes to succeed.
- ImageRegions.SoundRegions: regions are sorted by a stable insertion where the source calls qsort.
  Of regions apart from each other no two have the same offset, so the order is the same.
- ImageCover.DisjointAlways: the sections end before the certificate table.
- ImageCover.HashedAlways: headers and certificate table fit and the sections lie within the file; beyond
  it the source would hash bytes outside its buffer.
- ImageChecksum.CsumBytes: the source counts bytes with 32 bits here, so the length is below 2^32.
- ImageRuns.SigningKeepsHash: sizes are bounded by the 32-bit fields that store them, a removal asks
  for an index of at most the number of signatures, and no section ends beyond the padded file, where
  the source would hash bytes outside its buffer.
- KernelUpdate.Request.Update: source and destination are one list or have no common byte, or at least
  no common byte at different positions; the update function is chunk-independent on requests of
  this size, which is proved for Ascon and AES-GCM.
