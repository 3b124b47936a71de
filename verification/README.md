# EncFS, modelled and verified

EncFS stores a directory tree in encrypted form: file contents in enciphered (and optionally
authenticated) blocks behind a small header, file names as enciphered text, keys and settings in a
configuration file. Each layer has to look like something much simpler to the layer above it. This
project models those layers in Dafny and proves that they do.

The cryptography is abstract. A cipher is any family of length-preserving block and stream
transforms with matching inverses, a MAC is any function, a digest is any function with results of
one length (`Ciphers.Cipher`, `StreamCipher.Pass`, `KeyDerivation.Hash`). Nothing else is assumed
of it, except, where holes are allowed, that no non-zero block is enciphered to zeros.

| files | what they model |
|---|---|
| `Bytes`, `Buffers`, `Arith`, `Ciphers` | flat byte strings (`Slice`, `Splice`, `Resize`), block arithmetic, words, abstract ciphers |
| `Blocks`, `Formats` | what a store of encoded blocks means as one flat byte string, for any lawful block format; the cipher format and the MAC format |
| `RawFile`, `BlockFile`, `FileRuns`, `ReverseFile` | the file stack with its one-block cache, header, padding, holes and MAC blocks; whole runs; the reverse view |
| `StreamCipher`, `KeyDerivation` | the stream transform worked in place, key wrapping, password digests |
| `BaseChange`, `Base64`, `Names`, `NameBuffers`, `Paths`, `PathCoder` | bit repacking in place, the two name codings, paths with chained IVs, link targets |
| `Trees`, `Renames`, `Moves`, `DirNode`, `Volume` | recursive rename with roll-back, its meaning in the plaintext view, and when it succeeds on a volume |
| `Context` | the table of open files and the idle monitor |
| `Config`, `MemoryPool` | the binary configuration format; the buffer pool |

The main results:

* **The stack is a flat file.** For every run of reads, non-empty writes and truncates (with holes
  allowed: truncates that do not add a hole between block boundaries), on a cipher file or on a MAC
  file over it, the contents after the run are those of the flat
  model and every read that starts below the end of the file returns the flat model's bytes; on a
  healthy disk every request succeeds (`FileRuns.Replay`). The invariant behind it says that every
  MAC in the store checks, that a cached block below the end of the file is what reading it would
  return, and that both layers cache the same block. On a disk that fails, both layers keep the
  invariant through failed reads and a cipher file through failed writes as well
  (`FileRuns.ReplayWithFaults`), so a cached and an uncached file over the same store answer reads
  below the end alike (`FileRuns.TwinReads`).
* **A recursive rename moves a subtree in the plaintext view and touches nothing else.** Generating
  the list, applying it and moving the result commutes with the view, succeeds exactly when the
  move on the view does, and is taken back exactly when it stops half way
  (`DirNodes.DirNode.Rename`, `Moves.MoveView`, `Renames.GenDirApplies`, `Renames.UndoApplied`). On a
  volume with either name coding it is done exactly when the entry can be moved in the view
  (`Volumes.RenameOnVolume`).
* **Names and paths come back**, through text in the original's own buffers, for both codings, all
  versions, chained or not (`Paths.PathRoundTrip`, `Paths.LinkRoundTrip`).
* **The in-place repacker agrees with the out-of-place one** although its writes can run ahead of
  its reads (`BaseChange.ChangeBase2Inline`).

Where the code does not meet the obvious property, the exact condition is proved:

* A read at or past the end of the file can return a cached block that a truncate cut off, on both
  layers (`FileRuns.StaleRead`; `BlockFiles.BlockFile.Read` says exactly what it returns). With holes
  allowed such a block comes back below the end of the file exactly when `Stale` holds before the
  truncate (`BlockFiles.BlockFile.Truncate`), and then a read returns it instead of the zeros the
  file holds (`FileRuns.ExposedBlock`).
* A failed write of MAC blocks can leave a torn block, and then a later successful write can leave a
  block in the cache that is not what reading it returns: `FileRuns.TornBlock` does it. After a failed
  write the file is consistent exactly when its store is authentic (`BlockFiles.BlockFile.Write`); the
  size the MAC layer computes is right exactly when no header is torn (`Formats.MacSizeRight`); and a
  block just written is what reading it returns exactly when it is full or nothing is stored behind
  it (`Blocks.WrittenBack`).
* A failed creation of the header leaves the file IV in memory only, and the header is not written
  later: `BlockFiles.BlockFile.InitHeader` and `CipherWriteOneBlock` say when the header on disk stands
  for the IV in use. Once it does, no request, failed or not, loses it (`Stored`).
* A failed re-keying forgets the IV in memory; the contents survive if no header byte was written
  (`BlockFiles.BlockFile.SetIV`).
* A reverse read that stops inside the header returns the header's tail
  (`ReverseFiles.HeaderPartRight`).
* The link target `/` is lost under the stream coding (`Paths.LinkRoundTrip`).
* An exception from the internal node rename around the last step of a recursive rename skips the
  roll-back: the subtree stays where it was, re-encoded for its new place. `DirNodes.DirNode.Rename`
  says exactly when, the disk is changed exactly when re-encoding changes the subtree
  (`DirNodes.PreparedChanges`), and `DirNodes.RollbackSkipped` does it to a directory with one file,
  under a small stand-in for a chained coding.
* A roll-back restores the disk exactly when every new name was free when it was used: a file that a
  re-encoded name overwrote does not come back (`Renames.UndoExact`, `DirNodes.DirNode.Undo`).
* Re-encoding keeps the plaintext view exactly when no undecodable name becomes decodable under the
  new IV (`Renames.RecodeViewExact`).
* After 2^64 handles the counter starts over; opening keeps the table sound exactly when the next
  handle is not still in use (`Contexts.Context.Open`).
* A reverse view whose digest is all zero is enciphered under an IV taken from the plaintext, while
  its header shows the refused IV zero (`ReverseFiles.ReverseRead`, `ReverseFiles.ZeroDigest`).
* Renaming an open file onto another open file breaks the table of open files
  (`Contexts.RenameKeeps`, `Contexts.OverwriteExample`).
* A map with an empty key is written but cannot be loaded (`Configs.MapRoundTrip`); a negative
  integer is written but cannot be read (`Configs.IntRoundTrip`).

## Model

| member | source | states |
|---|---|---|
| Arith.LocRoundTrip | encfs/MACFileIO.cpp:89-119 | the two location maps of the MAC layer are inverse on every user offset |
| Arith.LocOfStored | encfs/MACFileIO.cpp:89-119 | the location maps relate n full blocks and r further bytes to the store that holds them with their headers |
| Arith.BlockStart | encfs/MACFileIO.cpp:106-109 | block starts are mapped to block starts |
| Blocks.SizeFormula | encfs/MACFileIO.cpp:134-145 | the size of a decoded store is locWithoutHeader of its length, and its length is locWithHeader of that size |
| Blocks.BlockRead | encfs/BlockFileIO.cpp:129-199 | a block below the end authenticates and decodes to its slice of the flat contents |
| Blocks.PastEnd | encfs/MACFileIO.cpp:147-215 | a block at or past the end of the data has no bytes in the store |
| Blocks.BlockWrite | encfs/BlockFileIO.cpp:204-323 | storing an encoding of a full block, or of one that reaches the end, is a flat write, also across a hole, and keeps every MAC valid |
| Blocks.WrittenBack | encfs/BlockFileIO.cpp:100-119 | on any store, authentic or not, a block just written is read back as written exactly when it is full or nothing is stored behind it |
| Blocks.GrowTo | encfs/BlockFileIO.cpp:415-477 | lengthening an aligned store with holes is a flat extension with zeros |
| Blocks.ShrinkInside | encfs/BlockFileIO.cpp:415-477 | rewriting the block that becomes partial and cutting the store is a flat truncate |
| Blocks.ShrinkAligned | encfs/BlockFileIO.cpp:468-474 | cutting the store at a block boundary is a flat truncate |
| Formats.EncodeBlockEncodes | encfs/CipherFileIO.cpp:372-452 | what the cipher layer stores for a block, full or partial, decodes to that block, also when all-zero blocks count as holes |
| Formats.BlockIVBits | encfs/CipherFileIO.cpp:352-356 | bit by bit the IV of a block is the sum of block number and file IV modulo 2 |
| Formats.BlockIVDiffers | encfs/CipherFileIO.cpp:352-397 | different blocks of a file have different IVs, so has a block under different file IVs, and block 0 has the file IV |
| Formats.StoredForm | encfs/CipherFileIO.cpp:389-434 | a full block is stored under the block cipher and a short one under the stream cipher, with that IV |
| Formats.MacBlockEncodes | encfs/MACFileIO.cpp:217-255 | a MAC block passes its check and yields its data, for any random bytes |
| Formats.ChangedMac | encfs/MACFileIO.cpp:179-197 | of two blocks that differ in their MAC bytes only, at most one is accepted |
| Formats.MacSizeRight | encfs/MACFileIO.cpp:134-145 | for any store of MAC blocks, torn or not, the computed size is the length of the contents exactly when no header is torn |
| RawFiles.RawFile.GetSize | encfs/RawFileIO.cpp:187-203 | the remembered size is the size on disk |
| RawFiles.RawFile.Write | encfs/RawFileIO.cpp:220-272 | short writes are continued until everything is in place; a failure leaves a prefix written |
| RawFiles.RawFile.Truncate | encfs/RawFileIO.cpp:274-304 | the file is resized with zeros and the remembered size follows |
| BlockFiles.HeaderRoundTrip | encfs/CipherFileIO.cpp:177-269 | a header written for a file IV under an external IV reads back as that IV, whatever follows it |
| BlockFiles.HeaderLayout | encfs/CipherFileIO.cpp:177-269 | the header is the IV, most significant byte first, under the stream cipher with the external IV |
| BlockFiles.CutCoherent | encfs/BlockFileIO.cpp:468-474 | a cached block survives a cut or growth between block boundaries exactly when it is not a stale block brought below the end |
| BlockFiles.TruncateCoherent | encfs/BlockFileIO.cpp:415-477 | the cache agrees with the file after a truncate exactly when no stale non-zero block came to lie below the new end |
| BlockFiles.ReadStep | encfs/BlockFileIO.cpp:151-196 | one turn of the read loop extends the bytes read so far by the next slice of the flat file and stops only at its end |
| BlockFiles.BlockFile.OnRaw | encfs/CipherFileIO.cpp:51-65 | a cipher layer on any file whose header is sound starts in a consistent state |
| BlockFiles.BlockFile.OnCipher | encfs/MACFileIO.cpp:60-73 | a MAC layer on an authentic store starts in a consistent state |
| BlockFiles.BlockFile.GetSize | encfs/CipherFileIO.cpp:162-175 | the size is the length of the flat contents, for both layers; fails exactly on a torn header |
| BlockFiles.BlockFile.InitHeader | encfs/CipherFileIO.cpp:177-245 | the IV in memory becomes the one of the header on disk, or a fresh non-zero one is written to an empty file; exactly when the header on disk stands for it afterwards |
| BlockFiles.BlockFile.CipherReadOneBlock | encfs/CipherFileIO.cpp:328-370 | returns the block's slice of the flat contents and changes nothing visible |
| BlockFiles.BlockFile.MacReadOneBlock | encfs/MACFileIO.cpp:147-215 | on any store, authentic or not, a block is returned exactly when it is let through; on an authentic one the check passes and the block's slice of the contents comes back |
| BlockFiles.BlockFile.CheckPassed | encfs/MACFileIO.cpp:164-197 | on any block that carries data: let through exactly when its first bytes are the low bytes of the MAC of the rest, or it is a hole, or only a warning is wanted |
| BlockFiles.BlockFile.CacheReadOneBlock | encfs/BlockFileIO.cpp:61-98 | a hit returns the cached bytes and changes nothing, even when they disagree with the file; below the end a coherent cache and the file agree; a miss returns and caches the block's slice; a failure empties the cache |
| BlockFiles.BlockFile.Read | encfs/BlockFileIO.cpp:129-199 | both layers, below the end: exactly the flat slice; past the end: exactly the tail of a stale cached block, if any; an aligned hit returns the cached bytes whatever the file holds; an aligned miss on any store fails exactly when the block is not let through |
| BlockFiles.BlockFile.CipherWriteOneBlock | encfs/CipherFileIO.cpp:372-416 | stores an encoding of the block behind the header, creating the header first if there is none; what a missing header reads as afterwards |
| BlockFiles.BlockFile.MacWriteOneBlock | encfs/MACFileIO.cpp:217-255 | stores an authentic MAC block at its place and leaves it in the base's cache |
| BlockFiles.BlockFile.CacheWriteOneBlock | encfs/BlockFileIO.cpp:100-119 | a covering block write is a flat write and is cached; on any store the cached block agrees with the file exactly under the condition of WrittenBack; a failed write empties the cache |
| BlockFiles.BlockFile.PadFile | encfs/BlockFileIO.cpp:330-410 | the gap reads as zeros: contents become the old ones resized to the size reached, which is the new size when forced |
| BlockFiles.BlockFile.Write | encfs/BlockFileIO.cpp:204-323 | contents become the flat write of the data at the offset, a gap reading as zeros; the layer below has the matching size; a failed write leaves an empty cache or an untouched file, and the stack consistent exactly when the store is authentic, as a cipher store always is |
| BlockFiles.BlockFile.CipherTruncate | encfs/CipherFileIO.cpp:462-499 | contents become the old ones resized; the cache stays coherent exactly when no stale block is exposed |
| BlockFiles.BlockFile.MacTruncate | encfs/MACFileIO.cpp:257-268 | contents become the old ones resized, every MAC still checks, and the stack stays consistent exactly when no layer's stale block is exposed |
| BlockFiles.BlockFile.StaleBelow | encfs/MACFileIO.cpp:257-268 | a stale block of the base is exposed only when the MAC file grows between its own block boundaries |
| BlockFiles.BlockFile.Truncate | encfs/BlockFileIO.cpp:415-477 | both layers: contents become the old ones resized and the layer below has the matching size; consistent exactly when no stale block is exposed; always succeeds on a healthy disk |
| BlockFiles.BlockFile.WriteHeader | encfs/CipherFileIO.cpp:247-269 | the header on disk stands for the old file IV although the shifting leaves the field zero |
| BlockFiles.BlockFile.SetIV | encfs/CipherFileIO.cpp:87-128 | after re-keying the header recovers the same file IV and all contents are as before; after a failure contents survive when no header byte was written or the mixed header still yields the IV |
| FileRuns.Serve | encfs/BlockFileIO.cpp:129-477 | one request does to the stack what it does to the flat model, consistent unless a stale block is exposed; a failed read changes nothing; after a failed write the stack is consistent exactly when its store is authentic; a header on disk is never lost |
| FileRuns.Replay | encfs/BlockFileIO.cpp:129-477 | every run of requests refines the flat model, answers included; on a healthy disk nothing fails |
| FileRuns.ReplayWithFaults | encfs/BlockFileIO.cpp:61-323 | on a failing disk the run goes on past failed reads, and past failed writes of a cipher file, and every successful read below the end returns what the file decodes to at that moment; after a failed write of MAC blocks, exactly when the file is still consistent |
| FileRuns.NewCipherFile | encfs/FileNode.cpp:73-80 | an empty cipher file meets all preconditions of runs |
| FileRuns.NewMacFile | encfs/FileNode.cpp:73-80 | an empty MAC file meets all preconditions of runs |
| FileRuns.StaleRead | encfs/BlockFileIO.cpp:468-474 | on every cached file of either layer: write a block, truncate to nothing, and reading the empty file returns the block |
| FileRuns.ExposedBlock | encfs/BlockFileIO.cpp:426-474 | with holes: write a non-zero block, truncate to nothing and back to one block; the contents are zeros and a read returns the old block |
| FileRuns.NeverStale | encfs/BlockFileIO.cpp:426-474 | on either layer only growth by a hole between block boundaries can expose a stale block |
| FileRuns.TornBlock | encfs/MACFileIO.cpp:134-255 | a torn MAC file on which a successful block write leaves a cached block that differs from what is stored |
| ReverseFiles.HeaderPartRight | encfs/CipherFileIO.cpp:531-546 | a reverse read starting in the header gets the right header bytes for every header exactly when it is empty or reaches the header's end |
| ReverseFiles.ViewInverts | encfs/CipherFileIO.cpp:283-370 | reading the reverse view in normal mode recovers the IV from its header and then the plaintext |
| ReverseFiles.ZeroDigest | encfs/CipherFileIO.cpp:204-318 | the IV recovered from a view is the refused value zero exactly when the digest is all zero |
| ReverseFiles.ReverseRead | encfs/CipherFileIO.cpp:504-572 | a reverse read that reaches past the header is a slice of header followed by blocks enciphered under the digest's IV, or under one from the plaintext when that is zero |
| StreamCipher.UnshuffleShuffle | encfs/SSL_Cipher.cpp:776-786 | unshuffling undoes the prefix-xor shuffle |
| StreamCipher.ShuffleUnshuffle | encfs/SSL_Cipher.cpp:776-786 | and the other way round |
| StreamCipher.FlipFlip | encfs/SSL_Cipher.cpp:758-774 | reversing 64-byte chunks twice is the identity, short last chunk included |
| StreamCipher.FlippedAt | encfs/SSL_Cipher.cpp:758-774 | which byte goes where, in chunks of 64 |
| StreamCipher.ShuffleBytes | encfs/SSL_Cipher.cpp:776-780 | the in-place loop computes the prefix xor |
| StreamCipher.UnshuffleBytes | encfs/SSL_Cipher.cpp:782-786 | the in-place backward loop computes the differences |
| StreamCipher.FlipBytes | encfs/SSL_Cipher.cpp:758-774 | the in-place loop reverses every chunk |
| StreamCipher.StreamLaws | encfs/SSL_Cipher.cpp:791-863 | stream decoding and encoding are mutually inverse and keep the length, for every size and IV including the wrap of iv+1 |
| StreamCipher.PairEncoded | encfs/SSL_Cipher.cpp:791-826 | the transform of two bytes written out: order of the steps and the IV of the second pass |
| StreamCipher.StreamEncode | encfs/SSL_Cipher.cpp:791-826 | the buffer ends up as the stream encoding of what it held |
| StreamCipher.StreamDecode | encfs/SSL_Cipher.cpp:828-863 | the buffer ends up as the stream decoding of what it held |
| StreamCipher.StreamModeSound | encfs/SSL_Cipher.cpp:791-863 | a cipher with this stream mode satisfies the laws that the file stack and the name codings assume |
| StreamCipher.KeyRoundTrip | encfs/SSL_Cipher.cpp:590-653 | readKey accepts what writeKey wrote and returns the same key |
| StreamCipher.WrapLayout | encfs/SSL_Cipher.cpp:626-653 | four checksum bytes, the most significant first, then the key under the checksum as IV |
| StreamCipher.Mac32Bits | encfs/Cipher.cpp:159-166 | the bits of the folded checksum |
| StreamCipher.UnwrapAccepts | encfs/SSL_Cipher.cpp:590-624 | checked reading accepts only data that writeKey would have produced |
| KeyDerivation.DerivedIs | encfs/SSL_Cipher.cpp:66-119 | the derived bytes are the start of the digest stream, however many digests were computed |
| KeyDerivation.DerivedStart | encfs/SSL_Cipher.cpp:82-94 | the first two digests written out, and that no rounds count as one |
| KeyDerivation.Chain | encfs/SSL_Cipher.cpp:83-94 | the digest is applied exactly the given number of rounds |
| KeyDerivation.BytesToKey | encfs/SSL_Cipher.cpp:66-119 | terminates with key followed by IV equal to the first bytes of D1, D2, ...; refuses empty data |
| BaseChange.DigitsOfVal | encfs/base64.cpp:33-58 | repacking into the same base is the identity |
| BaseChange.ValOfDigits | encfs/base64.cpp:33-58 | enough digits in a base keep the whole value |
| BaseChange.RepackRoundTrip | encfs/base64.cpp:33-113 | repacking bytes into a smaller base and back returns the bytes |
| BaseChange.RepackBits | encfs/base64.cpp:33-113 | bit p of the output is bit p of the input, low bits first |
| BaseChange.RepackLengths | encfs/base64.h:29-43 | the length conversions are inverse, round up exactly and always leave room |
| BaseChange.BinaryLengths | encfs/base64.h:29-35 | the way back rounds down for every length |
| BaseChange.ChangeBase2 | encfs/base64.cpp:33-58 | writes the digits of the source's value, as many as the bits give |
| BaseChange.ChangeBase2Inline | encfs/base64.cpp:67-113 | in place: the same digits as the out-of-place form, exactly the rounded-up number, nothing beyond them touched |
| BaseChange.CountsAgree | encfs/base64.cpp:33-113 | given the rounded-up length, both repackers write that many digits |
| BaseChange.RepackBoth | encfs/base64.cpp:33-113 | on the same bytes both repackers leave the same digits and touch nothing behind them |
| Base64.B64StandardEncode | encfs/base64.cpp:255-287 | the loop and its tail cases produce the padded text |
| Base64.B64StandardDecode | encfs/base64.cpp:207-249 | the register loop computes the decoding or fails on a character outside the alphabet |
| Base64.DecodeEncode | encfs/base64.cpp:197-287 | decoding undoes encoding whatever follows a pad character |
| Base64.StandardRoundTrip | encfs/base64.cpp:197-287 | decoding undoes encoding with and without padding |
| Base64.Alphabet | encfs/base64.cpp:193-254 | the alphabet of RFC 4648, and what else the decoder knows |
| Base64.DecodeRefuses | encfs/base64.cpp:211-224 | a character outside the alphabet before any pad is refused |
| Base64.DecodeAccepts | encfs/base64.cpp:211-248 | digits and tabs are accepted, however many |
| Base64.LeftOver | encfs/base64.cpp:241-246 | what one, two and three left-over digits yield |
| Base64.TestVectors | encfs/base64.cpp:251-287 | test vectors of section 10 of RFC 4648 |
| Base64.EncodedLength | encfs/base64.h:29-39 | text lengths match the length conversions |
| Names.TextRoundTrip | encfs/base64.cpp:121-191 | both alphabets are inverted and never contain slash, dot, plus or NUL |
| Names.Alphabets | encfs/base64.cpp:115-191 | both alphabets in order |
| Names.ArmorRoundTrip | encfs/base64.cpp:33-191 | bytes to text and back, in both bases, with matching lengths |
| Names.DearmorBits | encfs/base64.cpp:33-191 | any text within the alphabet is accepted and keeps its bits in place |
| Names.BlockNameRoundTrip | encfs/BlockNameIO.cpp:120-262 | decodeName inverts encodeName with the same chained IV; the length is maxEncodedNameLen; the text is clean; any block size and base |
| Names.StreamNameRoundTrip | encfs/StreamNameIO.cpp:85-191 | the same for every version of the stream coding |
| Names.ChainedIV | encfs/BlockNameIO.cpp:150-160 | the IV for the level below is the MAC of the name, with its padding in the block coding, under the IV of its own level |
| Names.DecodedIV | encfs/BlockNameIO.cpp:212-261 | whatever is decoded had the exact layout, so decoding hands on the MAC of what was decoded and accepts only a matching checksum and a valid padding |
| Names.DecodeAccepts | encfs/BlockNameIO.cpp:194-262 | and everything that has the layout is accepted, whoever wrote it |
| Names.Mac16Bits | encfs/Cipher.cpp:168-176 | the bits of the 16-bit checksum |
| Names.SeedBits | encfs/StreamNameIO.cpp:98-126 | the cipher's IV is checksum combined with chained IV, from version 3 and version 2 on |
| Names.PaddedBytes | encfs/BlockNameIO.cpp:140-148 | the padding fills the last block and every byte tells its length |
| NameBuffers.ArmorInPlace | encfs/BlockNameIO.cpp:173-191 | the buffer's bytes become their text in place, within the announced length |
| NameBuffers.BlockEncodeName | encfs/BlockNameIO.cpp:137-192 | in a buffer of the estimated size all accesses are in range and the result is the encoding |
| NameBuffers.StreamEncodeName | encfs/StreamNameIO.cpp:95-133 | the same for the stream coding |
| NameBuffers.BlockDecodeName | encfs/BlockNameIO.cpp:194-262 | the buffer version of decoding, length and padding checks included |
| NameBuffers.StreamDecodeName | encfs/StreamNameIO.cpp:135-191 | the same for the stream coding |
| Paths.RecodePath | encfs/NameIO.cpp:142-189 | the loop appends the coding of every component under the IV of its level |
| Paths.CodeName | encfs/NameIO.cpp:166-184 | the estimated buffer is large enough for every component |
| Paths.RecodeInverse | encfs/NameIO.cpp:142-189 | decoding undoes encoding component by component with the same chained IVs, dots passing through |
| Paths.DotsPass | encfs/NameIO.cpp:155-165 | the names . and .. stand for themselves in both directions |
| Paths.Separators | encfs/NameIO.cpp:149-153 | separators are kept except in front of everything |
| Paths.Unchained | encfs/NameIO.cpp:191-217 | without chaining the IV is neither used nor changed |
| Paths.PathRoundTrip | encfs/NameIO.cpp:191-225 | for every path, chained or not: decoding returns it without leading separators and with the same final IV |
| Paths.LinkRoundTrip | encfs/DirNode.cpp:322-358 | a link target, relative or absolute, comes back exactly unless it is the target / under the stream coding |
| Paths.AbsoluteStored | encfs/DirNode.cpp:344-352 | an absolute target is one name, coded without a chained IV, behind a plus sign |
| PathCoders.CoderLawful | encfs/NameIO.cpp:191-225 | both codings encode every component and decode it again with the same IV below it |
| PathCoders.ChainedBelow | encfs/SSL_Cipher.cpp:578-588 | on a chained volume the IV below a directory is the MAC of its name under the IV it lies at |
| PathCoders.LevelsDiffer | encfs/SSL_Cipher.cpp:578-588 | directories with different MACs have different IVs below them |
| PathCoders.TextEncodes | encfs/NameIO.cpp:142-189 | encoding a path text is encoding its components one after another |
| Trees.RenameBack | encfs/DirNode.cpp:218-247 | renaming to a free name keeps names distinct and is undone exactly by the opposite rename |
| Trees.EntryLost | encfs/DirNode.cpp:195-203 | renaming over a taken name loses exactly the entry that had it |
| Trees.RenameWeight | encfs/DirNode.cpp:195-203 | a rename keeps the number of entries exactly when the new name is free |
| Trees.MoveGraft | encfs/DirNode.cpp:576-597 | what was re-encoded at the old place does not matter once the subtree is moved |
| Trees.MoveExact | encfs/DirNode.cpp:592-592 | rename(2) succeeds exactly when the source is there and not above the target, and the target is free in an existing directory or replaceable |
| Trees.MoveResult | encfs/DirNode.cpp:592-592 | afterwards the subtree is at the new place, nothing at the old one, and every other file where it was |
| Renames.RecodeView | encfs/DirNode.cpp:384-482 | re-encoding a subtree for another IV leaves its plaintext view unchanged, undecodable entries keeping their names |
| Renames.RecodeViewExact | encfs/DirNode.cpp:384-482 | for a generated list the view is unchanged exactly when no undecodable name becomes decodable |
| Renames.GenDirApplies | encfs/DirNode.cpp:384-482 | applying the generated list re-encodes the whole subtree, each new name being free when used |
| Renames.ApplyBelow | encfs/DirNode.cpp:180-216 | applied to the whole tree, the list changes only the subtree it was made for |
| Renames.UndoApplied | encfs/DirNode.cpp:218-247 | undoing a list that was applied restores exactly the original tree |
| Renames.UndoExact | encfs/DirNode.cpp:218-247 | undoing restores the tree exactly when every new name was free when it was used |
| Renames.GenExact | encfs/DirNode.cpp:384-482 | a list is generated exactly for a directory whose decodable names, level by level, have an encoding under their new IV |
| Renames.GenMovable | encfs/DirNode.cpp:432-478 | a list is generated only when every name below can be re-encoded |
| Moves.LookupView | encfs/DirNode.cpp:306-315 | looking up an encoded path finds what the view shows at the plain path |
| Moves.PutView | encfs/DirNode.cpp:590-592 | placing a subtree under an encoded path places its view under the plain path, replaced entries included |
| Moves.RemoveView | encfs/DirNode.cpp:590-592 | removing an encoded path removes the plain path from the view |
| Moves.RecodeCanonical | encfs/DirNode.cpp:432-441 | re-encoded names are the encodings of their plaintexts, so later renames can rely on it |
| Moves.MoveView | encfs/DirNode.cpp:558-634 | re-encoding and moving a subtree moves it in the plaintext view, and succeeds exactly when the move on the view does |
| Moves.ViewInjective | encfs/DirNode.cpp:91-108 | the view hides nothing: canonical trees that look the same are the same |
| DirNodes.ListApplies | encfs/DirNode.cpp:492-502 | the list for a rename re-encodes exactly the subtree that is to be moved |
| DirNodes.DirNode.GenRenameList | encfs/DirNode.cpp:384-482 | the recursion over full paths appends the list of the subtree, or fails exactly when it cannot be generated |
| DirNodes.DirNode.Apply | encfs/DirNode.cpp:180-216 | the disk is the tree after the first `last` renames, wherever the loop stops |
| DirNodes.DirNode.Undo | encfs/DirNode.cpp:218-247 | from any index the disk is put back to what it was before the list, exactly when no rename had overwritten anything |
| DirNodes.DirNode.RenameBelow | encfs/DirNode.cpp:571-583 | the list is applied or taken back; without clashes the subtree is re-encoded in place, or the disk is as before |
| DirNodes.DirNode.Rename | encfs/DirNode.cpp:558-634 | exactly when it succeeds, is refused and is broken; success moves the entry in the view and keeps names canonical and distinct; refusal leaves the disk unchanged; broken leaves the subtree re-encoded at its old place; when names clash, exactly when a refusal leaves the disk unchanged |
| DirNodes.PreparedChanges | encfs/DirNode.cpp:571-625 | a broken rename leaves a changed disk exactly when re-encoding changes the subtree |
| DirNodes.SmallTreePrepared | encfs/DirNode.cpp:571-583 | a tree that meets every condition of a rename and whose re-encoding changes both the disk and the view |
| DirNodes.RollbackSkipped | encfs/DirNode.cpp:586-625 | an exception at the last step of a rename of that tree fails the rename and leaves the disk changed |
| Volumes.CoderReencodes | encfs/DirNode.cpp:410-441 | with either name coding every name that decodes can be re-encoded at any level, so every directory gets a list |
| Volumes.StoredMoveExact | encfs/DirNode.cpp:586-600 | the last step succeeds exactly when the entry can be moved in the stored tree |
| Volumes.CanMoveView | encfs/DirNode.cpp:586-600 | an entry can be moved in the stored tree exactly when it can be moved in the view |
| Volumes.RenameOnVolume | encfs/DirNode.cpp:558-634 | on a volume, with nothing failing and names that do not clash, a rename is done exactly when the entry can be moved in the view, and otherwise changes nothing |
| Contexts.PutKeeps | encfs/Context.cpp:158-165 | opening keeps the table sound exactly when the node is open under that path or its handle is unused |
| Contexts.EraseKeeps | encfs/Context.cpp:169-204 | releasing keeps the table sound |
| Contexts.RenameKeeps | encfs/Context.cpp:145-154 | renaming keeps the table sound exactly when no other open file has the new path |
| Contexts.OverwriteExample | encfs/Context.cpp:145-154 | two open files, one renamed onto the other: the other's handle leads to a node listed nowhere |
| Contexts.StepKeeps | encfs/Context.cpp:145-204 | every allowed step keeps the table sound and changes a node's count by one open or one release |
| Contexts.AllowedExactly | encfs/Context.cpp:145-204 | a step is allowed exactly when it keeps the table sound |
| Contexts.TableOverRuns | encfs/Context.cpp:145-204 | over every allowed run the table is sound and a node is listed as often as it was opened and not released |
| Contexts.IdleIsQuiet | encfs/Context.cpp:96-114 | the idle counter never exceeds the number of checks in a row without usage |
| Contexts.UnmountOnlyIdle | encfs/Context.cpp:96-131 | over every run, unmounting is announced only by a check that found no open file after at least timeoutCycles quiet checks, and never when mounting on demand |
| Contexts.UnmountWhenDue | encfs/Context.cpp:96-131 | and a check that finds no open file after more than timeoutCycles quiet checks does announce it |
| Contexts.RootDropsOnlyIdle | encfs/Context.cpp:96-131 | over every run, the root is dropped only when mounting on demand, by a check that found no open file after at least timeoutCycles quiet checks |
| Contexts.RootDropsWhenDue | encfs/FileUtils.cpp:1775-1787 | and is dropped, without an announcement, by a check that is due |
| Contexts.IdleExact | encfs/Context.cpp:31-40 | the idle counter is the number of quiet checks in a row, less one until the first one that was not quiet |
| Contexts.RootServed | encfs/Context.cpp:55-82 | until the announcement everybody gets the root, remounted if it was dropped, and is counted |
| Contexts.UsageIsUnused | encfs/Context.cpp:55-110 | a check is quiet exactly when nobody asked for the root, in a way that counts, since the check before |
| Contexts.NoRootAfterwards | encfs/Context.cpp:55-82 | after the announcement nobody gets the root, whatever happens next |
| Contexts.Context.Put | encfs/Context.cpp:158-165 | the new state of the table, sound exactly when the node was open there or its handle unused |
| Contexts.Context.Open | encfs/encfs.cpp:649-662 | the node open there, or a new one with the next handle; sound exactly when that handle is not in use, which holds until the counter wraps |
| Contexts.Context.Erase | encfs/Context.cpp:169-204 | the new state, still sound; unchanged when an assertion fails |
| Contexts.Context.RenamePath | encfs/Context.cpp:145-154 | the new state, sound exactly when nothing open is overwritten |
| Contexts.Context.LookupNode | encfs/Context.cpp:133-143 | finds a node exactly for open paths |
| Contexts.Context.LookupFuseFh | encfs/Context.cpp:214-221 | finds a node exactly for handles of listed nodes, and the node carries that handle |
| Contexts.Context.NextFuseFh | encfs/Context.cpp:208-211 | the 64-bit counter with its wrap-around; until it wraps the handle is not in use |
| Contexts.Context.Acquire | encfs/Context.cpp:55-82 | the loop around remounting ends with the root or with none, and counts usage |
| Contexts.Context.UsageAndUnmount | encfs/Context.cpp:96-131 | counters, root and announcement change as the run lemmas above assume, and the table of open files is untouched |
| Configs.IntRoundTrip | encfs/ConfigVar.cpp:92-140 | every 32-bit integer is read back wherever it stands in the buffer, exactly when it is not negative |
| Configs.IntTextShortest | encfs/ConfigVar.cpp:92-116 | the base-128 text stands for the number, marks every digit but the last, and no shorter text does |
| Configs.AnyDigits | encfs/ConfigVar.cpp:118-140 | any well-formed digits, leading zeros included, are read as their number |
| Configs.StringRoundTrip | encfs/ConfigVar.cpp:86-89 | a counted string is read back wherever it stands |
| Configs.StringCut | encfs/ConfigVar.cpp:183-207 | a string cut off behind its count is refused |
| Configs.FormatExamples | encfs/ConfigVar.cpp:86-140 | numbers and a map byte by byte |
| Configs.MapRoundTrip | encfs/ConfigReader.cpp:75-129 | a written map is restored by a fresh reader, whatever the key order, exactly when it has no empty key |
| Configs.ConfigVar.Read | encfs/ConfigVar.cpp:56-66 | returns what is there, short only at the end |
| Configs.ConfigVar.Write | encfs/ConfigVar.cpp:68-78 | inserts at the offset |
| Configs.ConfigVar.WriteInt | encfs/ConfigVar.cpp:92-116 | inserts the shortest text of the 32-bit pattern |
| Configs.ConfigVar.ReadInt | encfs/ConfigVar.cpp:118-140 | reads what the format says, with 32-bit wrap-around, and rejects a negative result |
| Configs.ConfigVar.ReadString | encfs/ConfigVar.cpp:183-207 | reads a counted string or fails when it is cut short |
| Configs.ConfigReader.LoadFromVar | encfs/ConfigReader.cpp:75-94 | the entries read are those of the text, an empty key or a failed assertion ending the loop |
| Configs.ConfigReader.ToVar | encfs/ConfigReader.cpp:116-129 | writes the count and every entry once |
| MemoryPools.Pool.Allocate | encfs/MemoryPool.cpp:66-99 | hands out the first free block large enough, or a new one; the rest of the list stays in order and no block is both free and in use |
| MemoryPools.Pool.Release | encfs/MemoryPool.cpp:101-115 | the block is zeroed and joins the free list, which stays acyclic and all zero |
| MemoryPools.Pool.DestroyAll | encfs/MemoryPool.cpp:117-131 | the walk over the list ends and empties the pool |
| MemoryPools.ApartTaken | encfs/MemoryPool.cpp:77-84 | taking a block out keeps free and used blocks disjoint with separate buffers |

## Left out

- Without a unique IV per file there is no header; that variant of the cipher layer, whose unaligned extension lengthens the base before it re-reads the old partial block (encfs/BlockFileIO.cpp:426-432), is not modelled.
- RawFiles.RawFile.GetSize: does not model a failing lstat, whose negative size initHeader takes for an empty file; every other system call may fail.
- RawFiles.RawFile.Write: does not model a pwrite that returns 0 after an earlier one made progress, which leaves the remembered size wrong.
- BlockFiles.BlockFile.InitHeader: a file open for reading only stays so; the program may reopen it for writing.
- BlockFiles.BlockFile.Write: empty writes are outside the contract.
- FileRuns.ReplayWithFaults: stops at a truncate that fails and at a failed write of MAC blocks, after which FileRuns.TornBlock shows the property to fail; with holes allowed it has no truncates.
- ReverseFiles.ReverseRead: reading only; reverse mounts without a header and reverse mounts that allow writes are not modelled.
- Buffers inside the block layer are sequences and requests are named by block number; the name codings, the repacker, the stream transform and the key derivation keep their arrays.
- The random generator's retry for a non-zero file IV is any non-zero IV; failing cipher calls are not modelled.
- Opening modes, reopening for writing and file descriptors are not modelled.
- NameBuffers.BlockDecodeName: text with characters outside the alphabet is refused; the program decodes it to arbitrary bytes that the checksum then rejects or not.
- NameBuffers.StreamDecodeName: the same.
- PathCoders.CoderLawful: a stored name that decodes to something that is not a file name (empty, with a separator or NUL, or dots) counts as undecodable.
- DirNodes.DirNode.Rename: assumes canonical names; the view is claimed only when names do not clash and no undecodable name becomes decodable by accident; the order in which a directory lists its entries, modification times and the re-keying of file headers during the rename are not modelled (re-keying itself is BlockFiles.BlockFile.SetIV).
- Contexts.Context.UsageAndUnmount: each mutex region is one step; overflow of the idle counter is not modelled.
- Configs.ConfigReader.ToVar: keys are written in any order, of which the sorted order of the program is one; maps and strings of 2^31 bytes or more are excluded.
- Base64.B64StandardDecode: the output is a sequence, so the size of the caller's buffer is not modelled.
- FUSE callbacks, command line, prompting, XML configuration, PBKDF2 timing, interface versions and the null ciphers: plumbing or foreign code, with no hard property.
- Range::closest (encfs/Range.h:68-83) does not terminate on some inputs, so nothing is claimed about it.
