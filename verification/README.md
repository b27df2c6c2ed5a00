# Kurma: verified models

This project models the parts of Kurma (an NFS-Ganesha based gateway with a convergent-dispersal secret-sharing codec)
whose correctness is hardest to see from the code, and proves what they promise. `dafny verify dfyconfig.toml` checks
everything; the files depend on nothing outside this directory.

- **Secret-sharing codec.** A secret is aligned, turned into an all-or-nothing package (AONT-RS, old CAONT-RS, CAONT-RS)
  or into word groups with hashes (CRSSS), and spread over n shares with a Cauchy matrix over GF(256); any k shares bring
  it back by in-place Gauss-Jordan elimination. `GaloisField`, `LinearAlgebra`, `Cauchy` and `DistributionMatrix` prove
  that any k rows are invertible; `MatrixInversion` proves the elimination; `CodecSizes`, `ErasureCoding`, `Regions`,
  `Packaging`, `CrsssLayout` and `CodecSpec` say what sizes, shares and packages are; `CDCodec` is the codec object with
  its buffers, and `RoundTrip` drives encoder and decoder one after the other. The field is a record of operations with
  a law predicate, as the code calls a library through function pointers; `Gf256` builds the field of 256 elements from
  shifts and exclusive-or and proves the laws of it. Hash and cipher are functions of fixed output length. The code
  never checks n <= 256 (n + k <= 256 for CRSSS); `Params.Valid` demands it, because beyond it the matrix entries are no
  longer bytes.
- **Table-driven CRC.** `BitDivision` is division of bit strings by a polynomial, one bit at a time and as a remainder;
  `Crc` is the 256-entry table and the loop over bytes.
- **ACL evaluation.** `Acl` has the loop that accumulates masks and the rule it must follow, bit by bit: the first entry
  that applies and names a bit decides it. Several early returns in the code build a status and drop it; the model falls
  through as the code does. `AclEntries` says, by their flags alone, which entries have a say in it.
- **Back channel.** `BackChannel` has the slot table and the sending of one callback; `SlotRuns` every interleaving of
  callbacks on one session; `LayoutRecall` every interleaving of layout recalls, replies, delays and the clock.
- **RPC dispatcher.** `RequestQueue` has the two-list queues; `DispatchRuns` every interleaving of the threads that share
  them and the wait list, one critical section at a time; `WakeUps` whether the requests are seen to; `Transport` the
  one-shot events, the decoder guard and the stall queue with its service thread.
- **File-system registry.** `FsIndex` has the two orders and ordered indexes; `FsidTypes` the representations of an id;
  `FsRegistry` the list and the two indexes that must agree; `FsForest` parents and claims, from an empty registry on;
  `FsClaims` the export of a path and what becomes of each file system.

Where a promise turned out not to hold of the code, the model keeps the code, one lemma gives an input, and another says
exactly when the promise holds:

- sequence ids on a callback slot are consecutive unless a call was dispatched after its channel lost its client
  (`SlotRuns.LostCallLeavesGap`, `SlotRuns.SequenceAdvances`);
- a layout recall can end as acknowledged although nothing was sent; an acknowledged recall was accepted exactly when all
  its calls left (`LayoutRecall.UnsentAcknowledged`, `LayoutRecall.AcknowledgedMeansAccepted`);
- a request can be queued while the only worker goes to wait, with nobody to wake it; every step that does this, and
  none other, is named, and the window for it (`WakeUps.WakeUpLost`, `WakeUps.NeverLeftAlone`,
  `WakeUps.LostInTheWindow`);
- root is not granted everything on a directory, against the comment in the code (`Acl.RootRefusedOnDirectory`,
  `Acl.RootVerdict`);
- an error wider than 16 bits can escape the CRC, exactly when it is a multiple of the polynomial
  (`Crc.WiderBurstMissed`, `Crc.UnseenExactly`);
- the 32-bit halves of a file system id, joined into one word and split again, come back exactly when the minor one is 1
  or both are 0 (`FsidTypes.SplitLosesMinor`, `FsidTypes.SplitUndoesJoin`);
- two 64-bit words shrunk to 32 bits are the exclusive-or of their halves, as a comment in the code has it, exactly when
  the lower half is 1 or the word is 0 (`FsidTypes.ShrinkLosesLowerHalf`, `FsidTypes.ShrinkIsXor`);
- the change of an id to the device number takes such halves instead, where the id has any, because its case falls
  through (`FsidTypes.DeviceNumberLost`, `FsidTypes.DeviceNumberTaken`).

## Model

| member | source | states |
|---|---|---|
| `RoundTrip.EncodeThenDecode` | java/secret-sharing/main.cc:45-87 | for every secret up to the maximum size, every valid (n, m, r), every k distinct share ids in any order, every random key and all four schemes, encoding, picking the k shares and decoding them succeeds and gives back exactly the secret |
| `RoundTrip.DecodeThenEncode` | java/secret-sharing/CDCodec.cpp:1314-1401 | whatever k buffers a decoder of CRSSS, old CAONT-RS or CAONT-RS accepts, encoding the whole aligned secret it found and picking the shares of the same ids gives exactly those buffers; a refusal at acceptable sizes means that nothing they could decode to is accepted |
| `RoundTrip.EncodeAndSelect` | java/secret-sharing/main.cc:45-75 | encoding succeeds for every such secret and the shares picked by id are the selected rows applied to the package |
| `RoundTrip.SharesDecode` | java/secret-sharing/CDCodec.cpp:824-888 | whatever an accepted decode of genuine shares yields has the original aligned secret, and a refusal is impossible |
| `CDCodec.CDCodec.constructor` | java/secret-sharing/CDCodec.cpp:34-242 | the codec starts with the distribution matrix of its scheme and buffers of the sizes the constructor computes |
| `CDCodec.CDCodec.EncodingEx` | java/secret-sharing/CDCodec.cpp:1314-1358 | encoding succeeds exactly when the aligned secret fits the buffer, keeps the secret, and leaves n shares of the package of the padded secret; under AONT-RS the package is sealed with the given random key |
| `CDCodec.CDCodec.DecodingEx` | java/secret-sharing/CDCodec.cpp:1376-1401 | a successful decode yields the start of an aligned secret that some package holding the k shares opens to and that passes the scheme's integrity check; with acceptable sizes and distinct ids a failure means no package and secret would have been accepted |
| `CDCodec.CDCodec.CrsssEncoding` | java/secret-sharing/CDCodec.cpp:454-533 | the shares are those of the package holding the secret's words and the hashes of its groups |
| `CDCodec.CDCodec.SealAndEncode` | java/secret-sharing/CDCodec.cpp:701-780 | the shares are those of the sealed package of the padded secret, for the three schemes of the AONT family |
| `CDCodec.CDCodec.CrsssDecoding` | java/secret-sharing/CDCodec.cpp:546-640 | as for DecodingEx, with the hashes of every group compared |
| `CDCodec.CDCodec.PackageDecoding` | java/secret-sharing/CDCodec.cpp:793-888 | as for DecodingEx, for the AONT family with its in-place and copying variants |
| `CDCodec.CDCodec.SealPackage` | java/secret-sharing/CDCodec.cpp:1121-1157 | the coding buffer holds the masked secret followed by the key masked with the hash of the masked secret |
| `CDCodec.CDCodec.OpenPackage` | java/secret-sharing/CDCodec.cpp:1255-1276 | the key and the secret are recovered from whatever package the buffer holds |
| `CDCodec.CDCodec.RecoverPackage` | java/secret-sharing/CDCodec.cpp:824-851 | succeeds exactly when the share ids are distinct, and then the buffer holds the one package of which the k buffers are the selected shares |
| `CDCodec.CDCodec.InvertRows` | java/secret-sharing/CDCodec.cpp:824-836 | the selected rows are reported invertible exactly when the share ids are distinct |
| `CDCodec.CDCodec.ReadGroups` | java/secret-sharing/CDCodec.cpp:606-635 | accepts exactly when every group hash in the package matches the words read out of it |
| `MatrixInversion.SquareMatrixInverting` | java/secret-sharing/CDCodec.cpp:309-442 | returns true exactly when the matrix was non-singular, and then the second matrix is its two-sided inverse, with both products the identity entry by entry, although back substitution zeroes single entries only |
| `MatrixInversion.Pivot` | java/secret-sharing/CDCodec.cpp:330-372 | a pivot is found or the matrix is singular; found, the row operations keep the solution set and leave a unit pivot |
| `MatrixInversion.ClearAbove` | java/secret-sharing/CDCodec.cpp:404-438 | zeroing single entries of the square matrix is as good as adding rows, once the rows below are solved |
| `LinearAlgebra.InversesMultiplyToIdentity` | java/secret-sharing/CDCodec.cpp:404-442 | matrices that undo each other on every vector multiply to the identity, both ways |
| `DistributionMatrix.AnyRowsOfSystematicMatrixInvertible` | java/secret-sharing/CDCodec.cpp:191-210 | any k distinct rows of the identity on top of the Cauchy matrix are non-singular |
| `DistributionMatrix.AnyRowsOfDispersalMatrixInvertible` | java/secret-sharing/CDCodec.cpp:95-102 | any k distinct rows of the CRSSS Cauchy matrix are non-singular |
| `Cauchy.CauchyKernelIsZero` | java/secret-sharing/CDCodec.cpp:95-102 | a combination of distinct poles that vanishes at as many distinct points is zero, by eliminating one pole at a time |
| `Gf256.LibraryIsLawful` | java/secret-sharing/CDCodec.cpp:186-190 | bytes with exclusive-or, and multiplication and division modulo x^8 + x^4 + x^3 + x^2 + 1, obey every law the codec relies on |
| `Gf256.InverseWorks` | java/secret-sharing/CDCodec.cpp:361-362 | every byte but zero has an inverse, its power 254: squaring eight times is the identity, and only zero and one are idempotent |
| `Gf256.TimesAssociates` | java/secret-sharing/CDCodec.cpp:365-370 | shift-and-add multiplication is associative |
| `Gf256.TimesCommutes` | java/secret-sharing/CDCodec.cpp:365-370 | shift-and-add multiplication is commutative, though it treats its arguments differently |
| `CodecSpec.AnyRowsInvertible` | java/secret-sharing/CDCodec.cpp:824-836 | for distinct valid ids the noninvertible branch of the decoders is never taken, whatever the scheme |
| `CodecSpec.RepeatedRowsNotInvertible` | java/secret-sharing/CDCodec.cpp:824-836 | with a repeated id no matrix undoes the selected rows |
| `CodecSpec.DecodingUndoesEncoding` | java/secret-sharing/CDCodec.cpp:793-888 | for genuine shares of a package the decoder can only find that package and its secret |
| `CodecSpec.AcceptedDecodingReproducesShares` | java/secret-sharing/CDCodec.cpp:1193-1297 | if CRSSS, old CAONT-RS or CAONT-RS decoding of any k buffers is accepted, the encoder picks the same aligned size and share size for the recovered aligned secret, and its package is the one decoded, of which the k buffers are the shares |
| `CodecSpec.FittingSizes` | java/secret-sharing/CDCodec.cpp:649-688 | the sizes of an aligned secret and shares that fit together are those the encoder chooses for a secret of that length |
| `CodecSpec.SecretsUpToMaximumEncode` | java/secret-sharing/CDCodec.cpp:1323-1340 | no size check refuses a secret up to the maximum |
| `CodecSpec.EncodedSizesAccepted` | java/secret-sharing/CDCodec.cpp:799-822 | no size guard of a decoder refuses the sizes an encoder produced |
| `CodecSpec.PackedOpens` | java/secret-sharing/CDCodec.cpp:1255-1276 | opening a package of an aligned secret gives that secret and no other |
| `CodecSpec.PackedCanBeOpened` | java/secret-sharing/CDCodec.cpp:1255-1290 | a package the encoder made passes the decoder's integrity check |
| `CodecSpec.PackedIsMasked` | java/secret-sharing/CDCodec.cpp:719-757 | what an all-or-nothing package is made of, said without the functions that build it: every word is the secret's word plus the cipher of its own index (under CAONT-RS every byte plus that of the cipher of its position), and the last word is the hash of all before it plus the key, which is the hash of the secret unless it is random |
| `CodecSpec.PackedIsSpread` | java/secret-sharing/CDCodec.cpp:487-515 | what a CRSSS package is made of: byte t of word j of group i of the secret is byte t of word i of block j, and the r last blocks have, as word i, the hashes of group i followed by the bytes 0 to r - 1 |
| `Packaging.OpenSealed` | java/secret-sharing/CDCodec.cpp:1193-1297 | unsealing a sealed package gives back secret and key |
| `Packaging.SealOpened` | java/secret-sharing/CDCodec.cpp:1193-1297 | sealing what was unsealed gives back the package, for every package |
| `Packaging.SealedWord` | java/secret-sharing/CDCodec.cpp:923-942 | for every i, word i of an AONT-RS or old CAONT-RS package is word i of the secret plus the cipher of a word whose first four bytes are i modulo 2^32, least significant first, and whose others are zero |
| `Packaging.IndexesDiffer` | java/secret-sharing/CDCodec.cpp:726-734 | no two indexes below 2^32 are encrypted as the same word |
| `Packaging.SealedBytes` | java/secret-sharing/CDCodec.cpp:1134-1144 | under CAONT-RS the mask is the cipher of one block whose byte p is p modulo 256 |
| `Packaging.SealedTail` | java/secret-sharing/CDCodec.cpp:1146-1157 | the last word is the key plus the hash of all before it |
| `Packaging.SpreadSecretUnique` | java/secret-sharing/CDCodec.cpp:546-640 | the words of a CRSSS package determine the secret |
| `Packaging.SpreadPackageUnique` | java/secret-sharing/CDCodec.cpp:454-533 | the secret and its group hashes determine the CRSSS package |
| `Packaging.SpreadBytes` | java/secret-sharing/CDCodec.cpp:504-508 | where each byte of a CRSSS secret is in the package |
| `Packaging.HashBytes` | java/secret-sharing/CDCodec.cpp:490-514 | hash j of a group is that of the group followed by the one byte j, so no two hashes of a group are of the same input |
| `ErasureCoding.LinearDecoding` | java/secret-sharing/CDCodec.cpp:838-851 | applying the inverse of the rows to the shares, byte lane by byte lane, gives the data back |
| `Regions.CombineAll` | java/secret-sharing/CDCodec.cpp:517-530 | the nested loops of region multiplications leave in each output block the matrix row applied to the input blocks |
| `CodecSizes.AlignedSizeIsLeast` | java/secret-sharing/CDCodec.cpp:682-688 | the aligned size is the least size not below the secret's that makes size plus word a multiple of word times k |
| `CodecSizes.AlignedSizeIsIdempotent` | java/secret-sharing/CDCodec.cpp:682-688 | aligning an aligned size changes nothing |
| `CodecSizes.SharesHoldPackage` | java/secret-sharing/CDCodec.cpp:649-673 | k shares hold exactly the aligned secret and one word |
| `CodecSizes.PackageFitsCodingData` | java/secret-sharing/CDCodec.cpp:163-182 | an aligned secret that passes the one buffer check makes a package that fits the coding buffer |
| `CodecSizes.GroupsFitCodingData` | java/secret-sharing/CDCodec.cpp:79-86 | the same for CRSSS |
| `CodecSizes.SecretsUpToMaximumFit` | java/secret-sharing/CDCodec.cpp:163-182 | secrets up to the maximum size pass the buffer check |
| `Crc.CrcT10Dif` | secnfs/end-to-end-dix/dix.c:134-142 | the loop over bytes with the table computes what the bit-serial register holds, for every buffer, place in it, length and start |
| `Crc.ChecksumDivides` | secnfs/end-to-end-dix/dix.c:134-142 | the table-driven checksum is bit-serial division by 0x8BB7 for every message and start, given a table closed under doubling |
| `Crc.TableIsDoubling` | secnfs/end-to-end-dix/dix.c:95-132 | the 256 constants are the table of the polynomial: zero, and each pair of entries from the entry at half the index |
| `Crc.EntryIsRun` | secnfs/end-to-end-dix/dix.c:95-132 | each entry of such a table is its index divided from a zero register |
| `Crc.ChecksumIsRemainder` | secnfs/end-to-end-dix/dix.c:134-142 | a word is the checksum exactly when it is the polynomial remainder of the message, with the start value in front |
| `Crc.ChecksumConcat` | secnfs/end-to-end-dix/dix.c:134-142 | the checksum of a concatenation continues from the checksum of the first part |
| `Crc.GuardChecks` | secnfs/end-to-end-dix/dix.c:134-156 | data followed by two bytes has checksum zero exactly when the two bytes are its checksum, high byte first |
| `Crc.BurstDetected` | secnfs/end-to-end-dix/dix.c:134-142 | two different buffers of one length that differ only inside a window of 16 bits, at any bit position, have different checksums |
| `Crc.WiderBurstMissed` | secnfs/end-to-end-dix/dix.c:134-142 | a window of 17 bits is not enough: two buffers that differ in one and check alike |
| `Crc.UnseenExactly` | secnfs/end-to-end-dix/dix.c:134-142 | two buffers of one length have the same checksum, from any start, exactly when they are equal or their difference is a multiple of the polynomial |
| `Crc.StampPiBuffer` | secnfs/end-to-end-dix/dix.c:150-156 | the tuple holds guard, application and reference tag in network byte order, and nothing around it is written |
| `Crc.TupleFields` | secnfs/end-to-end-dix/dix.c:150-156 | the bytes of a tuple, read most significant first, are guard, application tag and sector number |
| `Crc.StampSectors` | secnfs/end-to-end-dix/dix.c:294-302 | every sector has its tuple: its checksum, the application tag and its number, each zero where the device is to fill it in |
| `Crc.TupleOfFields` | secnfs/end-to-end-dix/dix.c:299-302 | bit 0 of the flags leaves the guard zero, bit 2 the application tag and bit 1 the sector number; otherwise they are the checksum, the tag and the number |
| `Crc.StampedChecks` | secnfs/end-to-end-dix/dix.c:299-302 | a sector followed by the guard stored for it checks to zero exactly when the guard is not left to the device, or the checksum of the sector is zero anyway |
| `BitDivision.RunIsTheRemainder` | secnfs/end-to-end-dix/dix.c:95-98 | the register ends with the remainder of the division, which is unique |
| `BitDivision.BurstChangesRun` | secnfs/end-to-end-dix/dix.c:95-98 | an error no wider than the register always changes the result when the polynomial has a constant term |
| `BitDivision.MultiplesGoUnseen` | secnfs/end-to-end-dix/dix.c:95-98 | two messages leave the same register exactly when they are equal or differ by a multiple of the polynomial, given a constant term |
| `Acl.CheckAccessAcl` | src/FSAL/access_check.c:313-533 | access is granted exactly when every requested bit is held implicitly or is allowed by the first applicable entry naming it, with or without CONTINUE and outputs; `allowed` is exactly the held bits, or, after a refusal at a blocking entry, exactly those held before it; `denied` is exactly the requested bits named by the blocking entries, or by the first, which includes every denied bit; and PERM is told from ACCESS by the write bits blocked or left undecided |
| `Acl.CheckAceGroup` | src/FSAL/access_check.c:29-42 | the loop finds a group exactly when it is the caller's or among the alternate groups |
| `Acl.CheckAceMatches` | src/FSAL/access_check.c:44-90 | special, group and user entries match as their kinds say |
| `Acl.CheckAceApplicable` | src/FSAL/access_check.c:92-137 | an entry applies unless it only inherits, excludes the type of object, or is for someone else; anyone's entry applies to root (`AclEntries.EntryDecides` has the flags) |
| `Acl.FirstMatchMeans` | src/FSAL/access_check.c:416-508 | a bit has a verdict exactly when some entry gives it and no earlier entry says anything of that bit |
| `Acl.FirstMatchStable` | src/FSAL/access_check.c:416-508 | later entries do not change a verdict, so stopping once nothing is missing is safe |
| `Acl.RootVerdict` | src/FSAL/access_check.c:351-373 | root, on files and directories alike, is granted all but EXECUTE, and EXECUTE exactly when some entry for this type allows it |
| `Acl.RootRefusedOnDirectory` | src/FSAL/access_check.c:351-360 | root is refused EXECUTE on a directory with an empty list |
| `AclEntries.EntryDecides` | src/FSAL/access_check.c:92-137 | an entry allows or denies the bits it names, as its type says, unless one of its flags or its `who` makes it irrelevant, each of which is spelled out: inherit-only, not for this type of object, neither ALLOW nor DENY, a DENY to root, OWNER@ to one who is not the owner, GROUP@ or a group to no member, a user to another user |
| `AclEntries.IrrelevantEntry` | src/FSAL/access_check.c:416-508 | taking one irrelevant entry out, wherever it stands, changes neither the verdict nor the allowed and denied bits nor the error code, however the evaluation is called |
| `AclEntries.IrrelevantEntries` | src/FSAL/access_check.c:416-508 | nor does taking any number of them out |
| `AclEntries.NotForThisObject` | src/FSAL/access_check.c:102-124 | in particular the list without its inherit-only entries, and without those that exclude this type of object, gives the same result for everyone |
| `AclEntries.NotForThisCaller` | src/FSAL/access_check.c:44-90 | and the list without the entries for others gives the same result for everyone but root: OWNER@ matters to the owner only, GROUP@ and groups to members, a user entry to that user |
| `AclEntries.DenialsSpareRoot` | src/FSAL/access_check.c:462 | for root the list without its denials gives the same result |
| `AclEntries.FirstEntryDecides` | src/FSAL/access_check.c:416-508 | an entry that is not irrelevant, put first, decides every bit it names and leaves the others to the rest of the list |
| `AclEntries.EveryoneAllowed` | src/FSAL/access_check.c:66-69 | an EVERYONE@ entry that allows, put first, grants everyone all it names |
| `AclEntries.NoListNoRights` | src/FSAL/access_check.c:391-412 | without a list, anyone but root holds exactly READ_ATTR, WRITE_ATTR, READ_ACL and WRITE_ACL if they own the object, and nothing otherwise |
| `AclEntries.OwnerKeepsRights` | src/FSAL/access_check.c:394-412 | no list takes these from the owner |
| `AclEntries.PermIsOfWrites` | src/FSAL/access_check.c:463-474 | PERM is only answered to one who asked for WRITE_ATTR, WRITE_ACL or WRITE_OWNER and does not hold it implicitly |
| `AclEntries.NoListCode` | src/FSAL/access_check.c:517-532 | without a list, PERM is answered exactly when one of these is asked for, less what the owner holds |
| `BackChannel.Session.ScanSlots` | src/MainNFSD/nfs_rpc_callback.c:1185-1195 | one pass finds a slot exactly when one below both the table size and the client's limit is free, and then the lowest such, and the highest slot in use once that one is taken |
| `BackChannel.Session.FindCbSlot` | src/MainNFSD/nfs_rpc_callback.c:1177-1221 | it waits exactly when told to and no slot is free; a slot is found exactly when one below both the table size and the client's limit is free in the table as it was, or as the others left it after a wait; it is the lowest such, is marked and its sequence advanced by one modulo 2^32, and the highest slot is the maximum in use; otherwise nothing is taken |
| `BackChannel.Session.ReleaseCbSlot` | src/MainNFSD/nfs_rpc_callback.c:1231-1239 | the slot is free again, and keeps its sequence id only if the call was sent |
| `BackChannel.ReleaseUndoesReserve` | src/MainNFSD/nfs_rpc_callback.c:1231-1239 | releasing an unsent reservation restores the table, across the wrap-around |
| `BackChannel.TrySession` | src/MainNFSD/nfs_rpc_callback.c:1284-1323 | one session is passed over, fails or sends; a slot is taken only if it sends, otherwise the table is as it was or as the others left it after a wait; a session passed over but still up had no slot |
| `BackChannel.V41Single` | src/MainNFSD/nfs_rpc_callback.c:1268-1329 | over all sessions and both passes, success means that one slot was taken, the lowest of one session that is up that is free and below both the table size and the client's limit, and an error that none was; only the tables waited on differ otherwise, by what the others did, and those are the sessions that were up and full, as far as the second pass came; ENOTCONN means that no session still up had such a slot, even after the wait; EINVAL exactly for minor version 0 |
| `SlotRuns.OneCallPerSlot` | src/MainNFSD/nfs_rpc_callback.c:1177-1239 | in every run no slot carries two calls, and a slot is in use exactly while a call holds it |
| `SlotRuns.SequenceAdvances` | src/MainNFSD/nfs_rpc_callback.c:1094-1096 | two calls sent in a row on a slot differ by one plus the calls dispatched but never sent between them, so by one exactly when that number is zero modulo 2^32 |
| `SlotRuns.LostCallLeavesGap` | src/MainNFSD/nfs_rpc_callback.c:1006-1009 | a run in which ids 1 and 3 are sent and 2 is not |
| `SlotRuns.StepKeepsInv` | src/MainNFSD/nfs_rpc_callback.c:984-1043 | reserving, abandoning, submitting, dispatching and completing keep the slot table, the calls and the log consistent |
| `LayoutRecall.OneOwner` | src/FSAL_UP/fsal_up_top.c:686-930 | in every run a recall record has exactly one owner, is freed at most once, and has released one slot per completed call |
| `LayoutRecall.OutcomeIsFinal` | src/FSAL_UP/fsal_up_top.c:686-802 | how a recall ended is never revised, and its record stays freed once |
| `LayoutRecall.RepliesBeforeLast` | src/FSAL_UP/fsal_up_top.c:702-748 | in every run each completed call of a recall has one reply, and all but the last, or all while the recall is open, asked for delay within the lease |
| `LayoutRecall.LastReplyDecides` | src/FSAL_UP/fsal_up_top.c:702-797 | in every run a recall ends as acknowledged exactly after an acceptance or a call that never left, as returned by the client exactly after NOMATCHING_LAYOUT, and as revoked exactly after any other reply or none, unless its state is gone (`LayoutRecall.LookupDecides`) |
| `LayoutRecall.LookupDecides` | src/FSAL_UP/fsal_up_top.c:755-797 | in every run a recall ends with its state gone exactly when the last look-up of the state failed, and with a return exactly when it was found and the recall was not acknowledged |
| `LayoutRecall.FirstFailureIsDeferred` | src/FSAL_UP/fsal_up_top.c:902-921 | a first call that cannot be submitted leaves the return to the delayed executor, a later one returns the layout at once |
| `LayoutRecall.AttemptsFit` | src/FSAL_UP/fsal_up_top.c:723-748 | a recall is sent n times only if n - 2 waits fit in the lease |
| `LayoutRecall.AttemptsReached` | src/FSAL_UP/fsal_up_top.c:723-748 | if n - 2 waits fit in the lease, some run sends the recall n times |
| `LayoutRecall.AttemptsBounded` | src/FSAL_UP/fsal_up_top.c:723-748 | with a lease of at least one second, at most lease + 29 recalls are sent, whatever the client answers |
| `LayoutRecall.BoundIsTight` | src/FSAL_UP/fsal_up_top.c:723-748 | with a lease of two seconds or more the bound is met |
| `LayoutRecall.UnsentAcknowledged` | src/MainNFSD/nfs_rpc_callback.c:1006-1009 | a run in which a recall ends as acknowledged though none of its calls left |
| `LayoutRecall.AcknowledgedMeansAccepted` | src/FSAL_UP/fsal_up_top.c:702-722 | in every run an acknowledged recall was accepted by the client exactly when all the calls submitted for it left; at most the last did not |
| `LayoutRecall.StepKeepsInv` | src/FSAL_UP/fsal_up_top.c:686-930 | creating, calling, dispatching, completing, delaying, revoking and the clock keep ownership, slot counts, timing and the history of replies |
| `RequestQueue.ReqQPair.Append` | src/MainNFSD/nfs_rpc_dispatcher_thread.c:980-985 | the request joins the end of the one queue the two lists stand for |
| `RequestQueue.ReqQPair.Consume` | src/MainNFSD/nfs_rpc_dispatcher_thread.c:1032-1088 | the head of the one queue is taken, through a splice if need be; nothing only from an empty queue |
| `RequestQueue.ReqQSet.EnqueueReq` | src/MainNFSD/nfs_rpc_dispatcher_thread.c:939-985 | a request goes to the end of the queue of its class, or nowhere, and the other classes are untouched; mounts, calls and high-latency requests have classes of their own |
| `RequestQueue.ReqQSet.DequeueScan` | src/MainNFSD/nfs_rpc_dispatcher_thread.c:1090-1142 | the head of the first non-empty class in turn is taken; nothing only if all four are empty |
| `RequestQueue.FullTurn` | src/MainNFSD/nfs_rpc_dispatcher_thread.c:1102-1142 | four turns from any class try every class |
| `RequestQueue.EveryClassComesFirst` | src/include/nfs_req_queue.h:106-112 | every class is the first to be tried within four scans, or within seven when the counter wraps |
| `RequestQueue.SevenScans` | src/include/nfs_req_queue.h:106-112 | seven it can be, because the counter skips zero |
| `DispatchRuns.RequestsServedInOrder` | src/MainNFSD/nfs_rpc_dispatcher_thread.c:939-1088 | in every interleaving what a class accepted is what it served followed by what waits, in order: none lost, none twice, and the size fields are the lengths |
| `DispatchRuns.WaitListFits` | src/MainNFSD/nfs_rpc_dispatcher_thread.c:1001-1191 | in every interleaving the waiter count is the length of the wait list, no entry is on it twice, and no assertion or first-entry access fails |
| `DispatchRuns.WaitsAfterFullScan` | src/MainNFSD/nfs_rpc_dispatcher_thread.c:1102-1150 | a worker that goes to wait has tried all four classes |
| `DispatchRuns.StepKeepsInv` | src/MainNFSD/nfs_rpc_dispatcher_thread.c:939-1191 | every critical section keeps queues, locks, scans, wait entries and pending wake-ups consistent |
| `WakeUps.NeverLeftAlone` | src/MainNFSD/nfs_rpc_dispatcher_thread.c:939-1191 | up to any point of a run, every class that holds a request had a producer about to look for waiters, a wake-up on its way, or a worker that would try the class before waiting, exactly when no step so far was a producer finding no waiter with every worker past its class, or a woken worker leaving as the only one to look |
| `WakeUps.StepKeepsUp` | src/MainNFSD/nfs_rpc_dispatcher_thread.c:994-1025 | the same for one step: these are the only steps that leave a request alone, and they do |
| `WakeUps.LostInTheWindow` | src/MainNFSD/nfs_rpc_dispatcher_thread.c:1001-1024 | a producer that finds no waiter leaves its request alone exactly when it is still queued, no other producer of the class or wake-up is pending, and every worker is gone, about to wait, or still scanning with the class behind it |
| `WakeUps.LostByLeaving` | src/MainNFSD/nfs_rpc_dispatcher_thread.c:1161-1179 | a worker that breaks off its wait leaves a request alone exactly when it was woken, no producer or other wake-up is pending, and every other worker is gone, past the class, or on the wait list |
| `WakeUps.WakeUpLost` | src/MainNFSD/nfs_rpc_dispatcher_thread.c:1144-1156 | a run in which a worker that has tried every class waits on a request that came in between |
| `Transport.OneTokenPerTransport` | src/MainNFSD/nfs_rpc_dispatcher_thread.c:1607-1795 | in every interleaving a live transport has exactly one event token and a destroyed one at most one, the decoding flag has one owner, and the request count is at most the limit plus one |
| `Transport.StallQueueFits` | src/MainNFSD/nfs_rpc_dispatcher_thread.c:776-888 | in every interleaving the stall counter is the queue length and the number of transports flagged stalled, a non-zero counter means exactly one service thread, and the already-stalled branch is never taken |
| `Transport.StalledUntilHalf` | src/MainNFSD/nfs_rpc_dispatcher_thread.c:776-818 | in every interleaving a stalled transport stays stalled until it is destroyed or one more request would still be within half its limit |
| `Transport.PickedIsFirst` | src/MainNFSD/nfs_rpc_dispatcher_thread.c:798-816 | the service thread picks the first in the queue of which that is so |
| `Transport.SomethingToPick` | src/MainNFSD/nfs_rpc_dispatcher_thread.c:798-816 | it finds one exactly when some stalled transport is so |
| `Transport.ActionKeepsFits` | src/include/ganesha_rpc.h:190-296 | events, guard, decoding, re-arming, reference counts and workers keep one token, one decoder and the request bound |
| `Transport.StallKeepsFits` | src/MainNFSD/nfs_rpc_dispatcher_thread.c:828-888 | a guarded transport is never already stalled, and stalling moves its token to the queue |
| `Transport.StepKeepsInv` | src/MainNFSD/nfs_rpc_dispatcher_thread.c:776-888 | stalling, starting the service, picking, unstalling and idling keep queue and service consistent |
| `FsIndex.ComparatorsAreOrders` | src/FSAL/commonlib.c:535-613 | both comparators decide a strict order on keys in which no minor comes before any minor, and call equal exactly what has the same key |
| `FsIndex.LessIsStrictTotal` | src/FSAL/commonlib.c:535-613 | that order is strict and total |
| `FsIndex.FsidLookup` | src/FSAL/commonlib.c:571-589 | on any search tree over the index the loop finds the entry with the key exactly when there is one |
| `FsIndex.DevLookup` | src/FSAL/commonlib.c:615-633 | the same for device numbers |
| `FsIndex.ReinsertRestores` | src/FSAL/commonlib.c:692-705 | putting an entry back after taking it out restores the index |
| `FsIndex.MoveUndone` | src/FSAL/commonlib.c:692-705 | after a rejected move the old key is free, so the fatal branch is not taken, and the index is what it was |
| `FsIndex.OrderedIsUnique` | src/FSAL/commonlib.c:535-613 | an ordered index is determined by its entries |
| `FsRegistry.Registry.ReIndexFsid` | src/FSAL/commonlib.c:661-711 | a move is refused exactly when the type is missing or another file system has the key, and then the whole registry is as before; otherwise only this file system's id changes |
| `FsRegistry.Registry.ReIndexDev` | src/FSAL/commonlib.c:713-750 | the same for device numbers |
| `FsRegistry.Registry.ChangeFsidType` | src/FSAL/commonlib.c:754-840 | nothing changes if the representation is the same, cannot be converted, or the converted id is taken, which are the two errors exactly; a mere renaming leaves the index alone, and any other change moves this file system, and no other, to the id converted as the code does it |
| `FsidTypes.SplitUndoesJoin` | src/FSAL/commonlib.c:769-827 | two 32-bit halves joined into a 64-bit word and split again come back exactly when the minor one is 1 or both are 0, for the split tests the word instead of masking it |
| `FsidTypes.SplitLosesMinor` | src/FSAL/commonlib.c:820-826 | halves 8 and 17 come back as 8 and 1 |
| `FsidTypes.DeviceNumberTaken` | src/FSAL/commonlib.c:805-829 | a file system to be known by its device number gets it as its id exactly when its old id has no 32-bit halves, or they happen to be that number |
| `FsidTypes.DeviceNumberLost` | src/FSAL/commonlib.c:805-829 | the id of device 8, 17 becomes 8 and 1 |
| `FsidTypes.JoinInjective` | src/FSAL/commonlib.c:769-775 | different pairs of halves join to different words |
| `FsidTypes.SquashedWords` | src/include/fsal_api.h:1157-1160 | of two 64-bit words squashed into one, the major exclusive-or the result is the minor with its halves exchanged |
| `FsidTypes.HalvedWords` | src/FSAL/commonlib.c:810-819 | two 64-bit words shrink to their upper halves, with the last bit flipped unless the word is zero |
| `FsidTypes.ShrinkIsXor` | src/FSAL/commonlib.c:810-819 | this is the exclusive-or of the two halves exactly when the lower half is 1 or the word is 0, for the code tests the word instead of masking it |
| `FsidTypes.ShrinkLosesLowerHalf` | src/FSAL/commonlib.c:810-819 | the word 17 shrinks to 1 |
| `FsidTypes.XorBits` | src/include/fsal_api.h:1157-1160 | exclusive-or of numbers is that of their bits |
| `FsRegistry.Registry.CreateFileSystem` | src/FSAL/commonlib.c:940-1061 | a mount is registered in list and both indexes exactly when it is not NFS, can be examined and duplicates neither key; a duplicate leaves nothing behind but possibly its device and type, which go to the file system with the same fsid, or if there is none, the same device number, and only if that has no real device and the duplicate has |
| `FsRegistry.NfsNames` | src/FSAL/commonlib.c:945-951 | a type is NFS exactly when its first three letters, in either case, are n, f and s |
| `FsRegistry.Registry.RemoveFs` | src/FSAL/commonlib.c:635-645 | a file system leaves the children of its parent, the list and the indexes it is in |
| `FsRegistry.Registry.ReleaseFileSystems` | src/FSAL/commonlib.c:1181-1204 | releasing empties list and indexes |
| `FsRegistry.Registry.Run` | src/FSAL/commonlib.c:661-1204 | list and indexes agree after any run of creations, moves, changes of type and releases |
| `FsForest.FindParent` | src/FSAL/commonlib.c:1063-1090 | the parent is the last listed of the file systems with the longest path that is a proper prefix; the root has none |
| `FsForest.BuildForest` | src/FSAL/commonlib.c:1161-1166 | the parent links of all file systems form a forest that the lists of children mirror, and the registry stays consistent |
| `FsForest.ProcessClaim` | src/FSAL/commonlib.c:1263-1362 | what another FSAL exports is refused and nothing changes; otherwise a zero code means that exactly the file systems the claim comes to, down the links past those taken and to those neither exported nor outside the path, are settled as the FSAL answered for each; an error means that one of them was answered with it, and that exactly those the claim had come to by then, in the order of the lists of children, are settled |
| `FsForest.ClaimChildren` | src/FSAL/commonlib.c:1331-1359 | the same for all that lies below a file system already taken, which stays as it is |
| `FsForest.GoesThroughExactly` | src/FSAL/commonlib.c:1293-1361 | a claim returns zero exactly when every file system it comes to is taken, or cannot be taken and is not the root of the export |
| `FsForest.ClaimRespectsExports` | src/FSAL/commonlib.c:1275-1291 | however it ends, a claim touches only descendants of the root by the parent links, unexports nothing, and leaves alone what another FSAL exports |
| `FsForest.RemovalKeepsForest` | src/FSAL/commonlib.c:635-645 | removing a file system leaves a forest exactly when nothing is mounted on it |
| `FsForest.Populate` | src/FSAL/commonlib.c:1126-1179 | an empty registry filled from a mount table has agreeing indexes, no NFS mounts, the right parent for every file system, a forest of links and no claims; a filled one is left as it is |
| `FsForest.PopulateAndClaim` | src/FSAL/commonlib.c:1126-1362 | from nothing, populating and claiming one file system keeps indexes, forest and exports consistent, and a zero code exports it |
| `FsClaims.TakesAllWithin` | src/FSAL/commonlib.c:1317-1361 | an FSAL that takes all it is asked for gets the root, and below it exactly what is mounted on the exported path and not cut off by an exported file system; the root is marked exported if a path is given, and nothing else changes |
| `FsClaims.PathKeepsOut` | src/FSAL/commonlib.c:1338-1345 | however an export ends, a file system mounted on its root outside the exported path stays as it was, with all that is mounted below it |
| `FsClaims.ExportKeepsOut` | src/FSAL/commonlib.c:1347-1351 | so does an exported one anywhere below the root |
| `FsClaims.DeclinedKeepsOut` | src/FSAL/commonlib.c:1296-1315 | and all that is mounted below one the FSAL did not take |
| `FsClaims.DeclinedIsUnclaimed` | src/FSAL/commonlib.c:1287-1308 | one that is declined while the export goes through is answered ENXIO, and is taken from any other FSAL all the same |
| `FsClaims.DeclinesRoot` | src/FSAL/commonlib.c:1293-1315 | an FSAL that does not take the root: ENXIO becomes EINVAL for an export and 0 for a nested file system, other errors are passed on, and nothing but the root changes, which is taken from any other FSAL |
| `FsClaims.ClaimedInOrder` | src/FSAL/commonlib.c:1336-1359 | the children are asked in order: if one is changed, each before it that is on the path and not exported was taken or declined, and is the FSAL's if taken |
| `FsClaims.FindExportRoot` | src/FSAL/commonlib.c:1380-1394 | the root of an export is the first listed of the file systems with the longest mount point that is "/" or the path or a directory on it; none only if there is no such |
| `FsClaims.MountPointIsRoot` | src/FSAL/commonlib.c:1380-1394 | a path that is a mount point is exported from a file system mounted there, unless it is one letter long and the root comes first |
| `FsClaims.ClaimPosixFilesystems` | src/FSAL/commonlib.c:1364-1420 | ENOENT exactly when no file system covers the path, and then nothing changes; otherwise its root is claimed with the path, and returned exactly when that went through, when it is exported by this FSAL; indexes, forest and exports stay consistent |

## Left out

- The tables and vector instructions of the GF(256) library: any lawful field will do for the codec, and `Gf256` gives one bit by bit.
- OpenSSL hashing and encryption: a foreign library, given by the output lengths the codec relies on; nothing is claimed of secrecy.
- CDCodec.CDCodec.SealAndEncode: the three encoders of the AONT family share one method; the source writes them out three times.
- n or k so large that matrix entries stop being bytes: the source does not check for it, and the model excludes it.
- BackChannel.V41Single: allocation and submission failures are arbitrary outcomes, and other threads act on a table only while this one waits on it (`SlotRuns` has every interleaving); the referring-call list and RPC encoding are not modelled.
- SlotRuns: a call handed to the RPC library counts as sent, also if the library then fails.
- LayoutRecall: submitting a recall is one step, so the increment of the attempt counter after submission cannot be overtaken by the reply.
- LayoutRecall: how recalls are created for a file, and the return of a layout itself, are not modelled.
- WakeUps: that a worker on its way arrives is not claimed; there is no fairness in the model.
- Transport: submitting work to the thread pool succeeds, or times out for decode jobs; other failures, which the source only logs, are not modelled.
- Transport: the global request quota is an arbitrary outcome, and reference counts other than the request count are not modelled.
- FsRegistry.Registry.RemoveFs: in the source a file system freed before those mounted on it leaves them pointing at freed memory; the model has no memory to point at.
- FsidTypes: ids are numbers; the operations are those of the source for ids that fit in 64 bits.
- FsRegistry: the balanced tree is an ordered sequence; lookup is proved on any search tree, rotations are not modelled.
- FsForest.FindParent: the model, like the source, does not ask for a slash after the prefix.
- Mode-bit access checks, device notifications and delegation recalls are not modelled.
- Locks, threads and condition variables appear as the critical sections of the state machines; memory allocation failures that are fatal in the source are not modelled.
