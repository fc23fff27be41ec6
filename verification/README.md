# A verified model of CipherBox's stateful core

CipherBox is an encrypted file store. This project models the parts of it whose correctness depends on
more than one call, and proves what every step, and every run of steps, keeps:

- the **folder table** of the web client, kept twice (parent pointers and child lists), with the walks
  over it, the guards of create and move, the add-then-remove publishes and both kinds of delete
  (`FolderTree`, `FolderOps`, `FolderService`, `FolderWorld`, `FolderRuns`, `FolderLosses`, `FolderAnswers`, `FolderHandlers`);
- **AES-CTR**: one definition of counter mode, and the chunked encryptor, the two independent range
  decryptors and the HTTP range responder that must agree with it (`AesCtr`, `StreamingCrypto`,
  `HttpRange`, `DecryptWorker`);
- the **IPNS record parser** against an encoder written as its specification (`IpnsRecord`);
- the **republish schedule** with its retry states, the **TEE worker** that signs for it and the **key
  epochs** that rotate underneath both (`Republish`, `TeeWorker`, `TeeKeyState`, `EpochRuns`);
- the **version history** of a file and the CIDs it hands to unpin (`FileVersions`);
- **share records** and the lazy rotation of a folder key after a revocation (`Shares`, `ShareRuns`);
- the **shared-folder browser**, a stack of key buffers zeroed in place under interleaved requests
  (`SharedNavigation`), and the **file size cache** guarded by a generation counter (`FileSize`).

Code that updates state is modelled as classes with methods and loops; each such method is proved equal to,
or constrained by, a specification over values, and the runs are proved about that specification. `Common`
holds the shared datatypes. The AES block function, ECIES wrapping (a value tagged with its recipient or its epoch)
and Ed25519 signing are parameters or tagged values. Clocks, random bytes and the success of each network request are
parameters, so the theorems cover every pattern of such failures.

Where the code does not do what its comments or callers expect, the model follows the code and states exactly when the
expected property holds; where an input is named, the member works it out in full:

- A batch move re-parents every folder item it is given, listed in the source folder or not. The table stays a forest
  exactly under `PointersFollow`; the documented use (all items are children of the source) satisfies it
  (`FolderRuns.BatchMoveForestIff`, `FolderRuns.ItemsOfSourceFollow`). Input: one stray item closes a parent cycle
  (`FolderRuns.StrayItemMakesCycle`), after which `getDepth` would not return.
- While the root folder is not loaded, the handlers publish from an empty stand-in for it. Any entry an operation does
  not name is kept exactly when its folder is not published, or is published from a list that has the entry
  (`FolderLosses.OthersKeptIff`); for the stand-in that means all the root had is lost exactly when it is published
  (`FolderLosses.StandInRootIff`). Inputs: an empty batch move, a batch delete and a create (`FolderLosses.StandInRootLoses`).
- A move into the stand-in leaves the moved entry in no list of the table, so a second move unpublishes the first one's
  entry altogether (input: `FolderLosses.TwoMovesLose`). One call keeps an entry of the table exactly when it neither deletes
  it nor moves it there (`FolderLosses.StepConservesIff`); with the root loaded, runs conserve everything that no
  call deletes (`FolderLosses.RunConserves`, `FolderLosses.RootedRunMovesNothingAway`).
- A single folder delete leaves loaded folders below the deleted one in the table, with their keys, exactly when one of its
  listed subfolders is loaded (`FolderLosses.DeleteOrphansIff`; input: `FolderLosses.DeleteOrphans`). The batch delete leaves none.
- Varints keep seventy bits: nothing rejects or truncates values from 2^64 up (`IpnsRecord.VarintRoundTripIff`).
- A file update cannot change `encryptionMode`. Every content and version is recorded under the mode it was encrypted with exactly as long as
  no published update brings content of another mode (`FileVersions.StepLabelledIff`, and over runs `FileVersions.RunLabelledIff`; input:
  `FileVersions.TextRecordedAsMedia`, a media file saved from the text editor).
- A previous epoch numbered 0 is read as no epoch and never deprecated (`TeeKeyState.DeprecatesIff`; input: `TeeKeyState.EpochZeroStays`).
- A key rotation that aborts because a re-wrap failed leaves the recipients already reached with a key that is thrown away, although
  the message promises no inconsistent state. Readers keep access exactly when the rotation is not attempted, when it completes
  with a list that names every reader, or when no re-wrap reaches the server (`ShareRuns.RotationKeepsReadersIff`, and over runs
  `ShareRuns.RunKeepsReadersIff`; input: `ShareRuns.AbortStrandsReader`).
- A rotation whose metadata publish fails has already removed the revoked shares. When every removal arrived nothing is pending any more, so it
  is never taken up again (`ShareRuns.UnpublishedRotationIsFinal`), and the revoked recipients' key stays in use (`ShareRuns.RotationKeepsOutsidersOutIff`, and over
  runs `ShareRuns.RunKeepsOutsidersOutIff`; input: `ShareRuns.UnpublishedForgetsD`) until a later rotation completes (`ShareRuns.CompletedRotationShutsOut`).
- After a rotation the client stamps an emptied share list as fresh. A second rotation that uses it locks out every reader
  (`ShareRuns.EmptyListLocksOut`); in general access survives exactly when the list names every active share (`ShareRuns.CompletedRotationReachesAllIff`).
- The file size cache promises to join concurrent requests, but any answer for a name ends the joining, also that of a request sent before a clear. The latest
  request is joined exactly as long as no answer for its name has come since it was sent (`FileSize.JoinedIff`; input: `FileSize.SentTwice`).
- A subfolder request that finishes after the user has moved on pushes the folder captured at the click and loses the key shown meanwhile
  without zeroing it. It does right when the captured folder is still shown, and otherwise leaves an invalid state unless the key shown meanwhile
  was all zero already (`SharedNavigation.Navigation.FinishSubfolder`; input:
  `SharedNavigation.StaleSubfolder`). Opening a share from inside another does the same (`SharedNavigation.Navigation.FinishShare`).

## Model

| member | source | states |
|---|---|---|
| FolderTree.BelowShrinks | apps/web/src/services/folder.service.ts:687-703 | In a tree each loaded subfolder has strictly fewer folders below it, so every recursion down child lists ends. |
| FolderTree.SubtreeDepthCovers | apps/web/src/services/folder.service.ts:687-703 | The child-list depth is at least the parent-pointer distance to every loaded folder below. |
| FolderTree.SubtreeDepthExact | apps/web/src/services/folder.service.ts:687-703 | When every subfolder listed inside the subtree is loaded, the child-list depth is the largest parent-walk distance to the folder, and a folder at that distance is given. |
| FolderTree.SubtreeDepthIs | apps/web/src/services/folder.service.ts:687-703 | Loaded or not, the depth is one more than that of the deepest listed subfolder, and 0 for a folder that lists none or is not loaded. |
| FolderService.GetDepth | apps/web/src/services/folder.service.ts:56-70 | The loop returns the number of loaded folders on the parent walk, which ends in every tree. |
| FolderService.IsDescendantOf | apps/web/src/services/folder.service.ts:715-730 | True exactly when some number of parent steps from the folder reaches the other id. |
| FolderService.CalculateSubtreeDepth | apps/web/src/services/folder.service.ts:687-703 | The recursion over child lists returns the subtree depth the two theorems above are about. |
| FolderService.CollectFolderIds | apps/web/src/hooks/useFolder.ts:565-574 | Of the loaded folders, the recursion over child lists pushes exactly those whose parent walk meets the folder, keeping what was pushed before. |
| FolderService.BelowByChild | apps/web/src/hooks/useFolder.ts:565-574 | A loaded folder is below another by parent pointers exactly when it is that folder or below one of the subfolders it lists. |
| FolderOps.CreatedKeepsForest | apps/web/src/hooks/useFolder.ts:183-199 | Adding a fresh folder to its parent's list and to the table keeps the forest. |
| FolderOps.CreatedKeepsDepth | apps/web/src/hooks/useFolder.ts:127-131 | The depth guard on the parent keeps every folder within the limit. |
| FolderOps.MovedKeepsAcyclic | apps/web/src/services/folder.service.ts:769-772 | The descendant check suffices: after re-parenting, every parent walk still ends. |
| FolderOps.MovedKeepsDepth | apps/web/src/services/folder.service.ts:762-767 | The depth check, which adds a parent-pointer depth to a child-list depth, keeps every folder within the limit. |
| FolderOps.MovedKeepsForest | apps/web/src/hooks/useFolder.ts:323-351 | After a checked move, lists and pointers agree again, nothing is listed twice and every walk ends. |
| FolderOps.RemovedKeepsDepth | apps/web/src/hooks/useFolder.ts:510-522 | Removing any folders keeps every walk finite and makes none longer. |
| FolderOps.RemovedForestIff | apps/web/src/hooks/useFolder.ts:510-522 | Dropping list entries and folders keeps the forest exactly when no surviving loaded subfolder loses its entry. |
| FolderLosses.MoveOpNeverLoses | apps/web/src/services/folder.service.ts:774-804 | At every failure point of a single or batch move, an entry that its folder lists and publishes stays published there, or it was named and the destination publishes it. |
| FolderLosses.MoveOpEndsInOnePlace | apps/web/src/services/folder.service.ts:774-804 | After a single or batch move that succeeds, a named entry that only the source published is published by the destination alone, and the two differ. |
| FolderLosses.OthersKeptIff | apps/web/src/hooks/useFolder.ts:119-605 | For every operation, failure point and folder: an entry not named is published afterwards exactly as before when the folder is not published, and exactly when the local list has it when the folder is. |
| FolderLosses.StandInRootIff | apps/web/src/hooks/useFolder.ts:38-62 | A root that is not loaded keeps what it had published exactly when the operation does not publish it. |
| FolderLosses.StandInRootLoses | apps/web/src/hooks/useFolder.ts:38-62 | An empty batch move, a batch delete and a create, each on a table without the root, unpublish an entry they do not name. |
| FolderLosses.DeleteOrphansIff | apps/web/src/hooks/useFolder.ts:503-512 | A single delete leaves no folder below the deleted one exactly when none of the deleted folder's listed subfolders is loaded. |
| FolderLosses.DeleteOrphans | apps/web/src/hooks/useFolder.ts:503-512 | A table in which deleting a folder leaves its loaded subfolder behind. |
| FolderLosses.StepConservesIff | apps/web/src/hooks/useFolder.ts:119-605 | An entry of the table is still listed after an operation exactly when the operation does not delete it, its folder or a folder above, and does not move it into an unloaded root. |
| FolderLosses.StepKeepsPlace | apps/web/src/hooks/useFolder.ts:119-605 | Such an operation leaves the entry with exactly one folder that lists it, and published there. |
| FolderLosses.RunConserves | apps/web/src/hooks/useFolder.ts:119-605 | Over every run, wherever publishes fail and whatever else is listed, an entry that its folder lists and publishes and that is neither deleted nor moved into an unloaded root is at the end listed by exactly one folder of the table, and published there. |
| FolderLosses.RootedRunMovesNothingAway | apps/web/src/hooks/useFolder.ts:119-605 | A run that starts with the root loaded moves nothing into an unloaded root. |
| FolderLosses.TwoMovesLose | apps/web/src/hooks/useFolder.ts:339-351 | Two successful moves into an unloaded root leave the first moved entry listed and published nowhere. |
| FolderWorld.MoveChecksAllow | apps/web/src/services/folder.service.ts:751-772 | A single move that is not refused satisfies all conditions the preservation theorems need. |
| FolderWorld.BatchChecksAllow | apps/web/src/hooks/useFolder.ts:397-427 | A batch that is not refused satisfies them for every selected child, with distinct names within the batch. |
| FolderWorld.MoveKeepsInvariants | apps/web/src/hooks/useFolder.ts:323-351 | A completed move keeps the forest, the depth limit and distinct names in the destination. |
| FolderWorld.MoveToItself | apps/web/src/services/folder.service.ts:758-760 | A move whose source is its destination passes the name check only when it selects nothing, and leaves the forest. |
| FolderRuns.ItemsOfSource | apps/web/src/hooks/useFolder.ts:369-372 | Items that are children of the source under their own type are exactly the folders the lists move. |
| FolderRuns.ItemsOfSourceFollow | apps/web/src/hooks/useFolder.ts:369-372 | The documented use satisfies the condition under which the forest survives. |
| FolderRuns.BatchMoveForestIff | apps/web/src/hooks/useFolder.ts:457-471 | A checked batch move keeps the forest exactly when its items re-parent the folders its lists move and no others with a loaded parent. |
| FolderRuns.BatchMoveKeepsForest | apps/web/src/hooks/useFolder.ts:457-471 | Under that condition the depth limit survives too. |
| FolderRuns.StrayItemMakesCycle | apps/web/src/hooks/useFolder.ts:464-471 | One item not listed by the source passes all checks and closes a cycle of parent pointers. |
| FolderRuns.BatchDeleteExact | apps/web/src/hooks/useFolder.ts:560-600 | A folder is removed exactly when a selected loaded folder is on its parent walk; no survivor has a removed folder above it, and only the parent is changed. |
| FolderRuns.BatchDeleteUnlistsNone | apps/web/src/hooks/useFolder.ts:582-600 | Items carried under their listed type drop no surviving subfolder's entry. |
| FolderRuns.DeleteUnlistsNone | apps/web/src/hooks/useFolder.ts:503-522 | A single delete that found its item drops the entry and the folder together. |
| FolderRuns.StepKeepsInv | apps/web/src/hooks/useFolder.ts:119-605 | Each local operation, with publishes failing anywhere, keeps the forest; it keeps the depth limit and the published backing where they held. |
| FolderRuns.RunKeepsInv | apps/web/src/hooks/useFolder.ts:119-605 | Over every run of creates, moves, batch moves, deletes and batch deletes on a forest: the table is a forest, every depth is at most 20 if it was, and every listed entry is published where it is listed if it was. |
| FolderAnswers.StateForIff | apps/web/src/hooks/useFolder.ts:38-62 | The root is known once the vault is, and stands for an empty list while it is not loaded; any other folder is known exactly when it is loaded. |
| FolderAnswers.FiltersKeepOrder | apps/web/src/hooks/useFolder.ts:323-351 | Taking the named entries out of a list, and leaving them out, both keep the order of the list. |
| FolderAnswers.DepthIs | apps/web/src/services/folder.service.ts:56-70 | The depth the guards use is the one number of loaded folders after which the parent walk ends. |
| FolderAnswers.MoveAllowedIff | apps/web/src/hooks/useFolder.ts:397-427 | The conditions of the preservation theorems are: distinct names among the selected entries, none of them a name of the destination, no selected folder on the parent walk of the destination, and destination depth, one, and subtree depth at most 20 together. |
| FolderAnswers.BatchAcceptedIff | apps/web/src/hooks/useFolder.ts:373-427 | With publishes that work, a batch move succeeds exactly when both folders are known and those conditions hold, for every forest and every item list. |
| FolderAnswers.BatchCheckTells | apps/web/src/hooks/useFolder.ts:397-427 | Each refusal of the validation loop names something that is so: two selected entries of one name, a name taken, a folder above the destination, a depth above 20. |
| FolderAnswers.BatchRefusals | apps/web/src/hooks/useFolder.ts:373-471 | A batch is refused for an unknown folder exactly when one is unknown, and fails in publishing exactly when it was accepted and a publish failed. |
| FolderAnswers.MoveAcceptedIff | apps/web/src/services/folder.service.ts:751-772 | A single move succeeds exactly when both folders are known, the source has the item, no entry of the destination has its name, and a folder is neither above the destination nor too deep below it. |
| FolderAnswers.MoveDoes | apps/web/src/hooks/useFolder.ts:323-351 | A successful single or batch move appends the named entries, in order, to the destination list, leaves them out of the source list, points exactly the named folders of the source to the destination, and changes no other folder. |
| FolderAnswers.MovePublishesBoth | apps/web/src/services/folder.service.ts:774-804 | An accepted move publishes just these two lists, the destination first; a failed publish stops it there. |
| FolderAnswers.CreateAcceptedIff | apps/web/src/hooks/useFolder.ts:119-199 | A create succeeds exactly when the parent walk ends after fewer than 20 folders, there is a keypair, and the parent or the vault is known. |
| FolderAnswers.CreateDoes | apps/web/src/hooks/useFolder.ts:183-199 | It adds the child last to one list, here and published, and the new folder to the table, and changes nothing else. |
| FolderAnswers.DeleteAcceptedIff | apps/web/src/hooks/useFolder.ts:490-522 | A delete succeeds exactly when the parent is known and lists the item under its type. |
| FolderAnswers.DeleteDoes | apps/web/src/hooks/useFolder.ts:503-522 | It takes the item out of one list, here and published, and a folder item out of the table, and changes nothing else. |
| FolderAnswers.BatchDeleteDoes | apps/web/src/hooks/useFolder.ts:543-600 | A batch delete succeeds whenever the parent is known; it takes the items out of one list, here and published, and from the table exactly the folders with a selected loaded folder on their parent walk. |
| FolderHandlers.FolderStore.SetFolder | apps/web/src/stores/folder.store.ts:80-83 | One entry is replaced under its own id. |
| FolderHandlers.FolderStore.UpdateFolderChildren | apps/web/src/stores/folder.store.ts:85-96 | A present folder's list is replaced; an absent one changes nothing. |
| FolderHandlers.FolderStore.RemoveFolder | apps/web/src/stores/folder.store.ts:131-144 | The entry is dropped and both its key buffers are zero afterwards. |
| FolderHandlers.FolderStore.UpdateFolderMetadata | apps/web/src/services/folder.service.ts:234-271 | A successful publish replaces the published children of one folder, a failed one nothing. |
| FolderHandlers.FolderStore.HandleCreate | apps/web/src/hooks/useFolder.ts:119-199 | The handler's steps leave the table, records and error that the create specification gives, at every publish outcome. |
| FolderHandlers.FolderStore.HandleMove | apps/web/src/hooks/useFolder.ts:292-358 | The same for a single move, checks in the handler's order. |
| FolderHandlers.FolderStore.HandleMoveItems | apps/web/src/hooks/useFolder.ts:373-471 | The same for a batch move, whose acceptance and effect `FolderAnswers` states of lists and parent steps. |
| FolderHandlers.FolderStore.CheckBatch | apps/web/src/hooks/useFolder.ts:397-427 | The validation loop with its growing name set refuses with the error of the first failing child. |
| FolderHandlers.FolderStore.HandleDelete | apps/web/src/hooks/useFolder.ts:490-522 | The same for a delete; a removed folder's key buffers are zero, those of a folder that stays keep their contents. |
| FolderHandlers.FolderStore.HandleDeleteItems | apps/web/src/hooks/useFolder.ts:543-600 | The same for a batch delete; the key buffers of exactly the removed folders are zeroed and all others keep their contents. |
| FolderHandlers.FolderStore.CollectSelected | apps/web/src/hooks/useFolder.ts:576-580 | The loop over the items collects exactly the loaded folders at or below a selected folder. |
| FolderHandlers.ApplyKeepsKeysApart | apps/web/src/stores/folder.store.ts:80-144 | No operation lets two folders share a key buffer, which zeroing in place relies on. |
| AesCtr.XorTwice | packages/crypto/src/aes/decrypt-ctr.ts:26-63 | Exclusive or with the same byte twice is the identity. |
| AesCtr.XorBit | packages/crypto/src/aes/encrypt-ctr.ts:63-69 | Each of the eight bits of the result is one exactly when just one of the two bytes has a one there. |
| AesCtr.CtrInverts | packages/crypto/src/aes/decrypt-ctr.ts:26-63 | Counter mode undoes itself at every length and for every initial counter. |
| AesCtr.CounterBytes | packages/crypto/src/aes/decrypt-ctr.ts:129-140 | Byte m of a counter block is that of the nonce for m below 8, and otherwise that of the start number plus the block number modulo 2^64, most significant byte first. |
| AesCtr.KeyStream | packages/crypto/src/aes/encrypt-ctr.ts:63-69 | At every position the ciphertext is, bit by bit, the exclusive or of the data with the block cipher applied to that counter block; zeros encrypt to the key stream itself. |
| AesCtr.DecryptInvertsEncrypt | packages/crypto/src/aes/encrypt-ctr.ts:32-74 | Encryption is counter mode over the whole plaintext and decrypting returns it; a wrong key size, or else a wrong IV size, is refused as such on both sides. |
| AesCtr.CounterMoves | packages/crypto/src/aes/decrypt-ctr.ts:129-140 | Adding blocks to the 64-bit counter in two steps is adding them in one, across the wrap. |
| AesCtr.CtrSlice | packages/crypto/src/aes/decrypt-ctr.ts:154-171 | Processing a block-aligned slice from its own counter gives the slice of the whole. |
| AesCtr.BuildCounter | packages/crypto/src/aes/decrypt-ctr.ts:129-140 | The buffer written in place holds the nonce and the wrapped big-endian counter. |
| AesCtr.DecryptAesCtrRange | packages/crypto/src/aes/decrypt-ctr.ts:88-177 | For every input the fast form returns the requested bytes of the full decryption, clipped to the data, or the error for a bad size or range. |
| StreamingCrypto.GenerateCtrIv | packages/crypto/src/utils/random.ts:68-75 | The IV is the nonce followed by a zero counter half. |
| StreamingCrypto.CounterFromZero | apps/web/src/services/streaming-crypto.service.ts:92-110 | With a zero counter half the block number written for a chunk is the counter of that block. |
| StreamingCrypto.EncryptChunks | apps/web/src/services/streaming-crypto.service.ts:92-117 | The chunks of the loop, put together, are the one-shot encryption of the file. |
| StreamingCrypto.Combine | apps/web/src/services/streaming-crypto.service.ts:119-126 | Copying the chunks one after another gives their concatenation. |
| StreamingCrypto.EncryptFileCtr | apps/web/src/services/streaming-crypto.service.ts:75-142 | The result is the one-shot encryption under the generated IV, and the file key is zeroed. |
| StreamingCrypto.EncryptThenReadRange | packages/crypto/src/aes/decrypt-ctr.ts:88-177 | The range decryptor, run on what the chunked encryptor returns, gives exactly the requested bytes of the file. |
| HttpRange.ParseDecimal | apps/web/src/workers/decrypt-sw.ts:343-357 | Parsing the digits of a number gives the number. |
| HttpRange.DecimalDigits | apps/web/src/workers/decrypt-sw.ts:343-357 | Numbers are written in decimal, last digit last. |
| HttpRange.ParsedRendered | apps/web/src/workers/decrypt-sw.ts:343-357 | Each of the three range forms, written with any numbers, is recognized as what was meant. |
| HttpRange.NoUnitNoMatch | apps/web/src/workers/decrypt-sw.ts:343-357 | A header that contains `bytes=` nowhere asks for no range. |
| HttpRange.WrittenRange | apps/web/src/workers/decrypt-sw.ts:343-370 | The interval selected by `bytes=a-b`, `bytes=a-` and `bytes=-n`: its start and end in terms of a, b, n and the size. |
| HttpRange.SelectRange | apps/web/src/workers/decrypt-sw.ts:337-371 | A refused range names no byte of the file; otherwise start..end are exactly the named bytes, within the file; no range asks for everything. |
| HttpRange.RefusedIff | apps/web/src/workers/decrypt-sw.ts:359-370 | A written range is refused exactly when it starts past the end, asks for a suffix of nothing, or ends before it starts. |
| DecryptWorker.HexRoundTrip | packages/crypto/src/utils/encoding.ts:14-44 | Decoding the hex of any bytes returns them. |
| DecryptWorker.HexDigitsMean | apps/web/src/workers/decrypt-sw.ts:89-95 | Two hex digits of either case are read as sixteen times the first plus the second. |
| DecryptWorker.HexToBytes | apps/web/src/workers/decrypt-sw.ts:89-95 | The loop decodes any string pair by pair, as `parseInt` reads each pair; an odd last character is dropped. |
| DecryptWorker.RangeFromBlocks | apps/web/src/workers/decrypt-sw.ts:103-159 | The aligned slice and its sub-slice give the requested bytes of the whole. |
| DecryptWorker.DecryptRange | apps/web/src/workers/decrypt-sw.ts:103-159 | For any key and IV strings the worker's own range decryptor equals the clipped slice of the full decryption, and fails exactly for a key of another size or an IV under 16 bytes. |
| DecryptWorker.EncryptThenDecryptRange | apps/web/src/workers/decrypt-sw.ts:103-159 | Given the key and IV in hex of a file encrypted in chunks, the worker's decryptor returns exactly the requested bytes of the file. |
| DecryptWorker.Worker.RegisterStream | apps/web/src/workers/decrypt-sw.ts:179-190 | One context is replaced; cached bytes stay. |
| DecryptWorker.Worker.UnregisterStream | apps/web/src/workers/decrypt-sw.ts:192-197 | The context and the cached bytes of the name are gone, all others stay. |
| DecryptWorker.LookupIff | apps/web/src/workers/decrypt-sw.ts:65-77 | Looking a key up in the insertion-ordered cache finds exactly the entry under it. |
| DecryptWorker.Worker.CacheSet | apps/web/src/workers/decrypt-sw.ts:70-77 | A new entry is put last, and the first of five makes room for it; all others stay in their order. |
| DecryptWorker.Worker.HandleFetch | apps/web/src/workers/decrypt-sw.ts:227-400 | Each request is answered as its bytes, status and headers demand, from cached or fetched bytes: 404, 502, the fetch's own status, 416, 500 for an undecryptable context, 206 or 200. |
| DecryptWorker.RepliesAreExact | apps/web/src/workers/decrypt-sw.ts:337-399 | When the fetched bytes encrypt a file of the registered size under the registered key and IV, a request without a range gets 200 with the whole file, a 206 carries exactly the announced plaintext bytes, 416 means no byte was asked for, and no other reply is given. |
| DecryptWorker.WrittenRangeAnswered | apps/web/src/workers/decrypt-sw.ts:337-399 | `bytes=a-b`, `bytes=a-` and `bytes=-n` are answered with exactly the bytes from a to b, from a on, or the last n of the file, and with 416 when there are none. |
| DecryptWorker.FailsIff | apps/web/src/workers/decrypt-sw.ts:103-159 | A request whose bytes are at hand and whose range is not refused fails exactly for a hex key that is not of 16, 24 or 32 bytes or an IV under 16. |
| DecryptWorker.AnnouncedLengthIff | apps/web/src/workers/decrypt-sw.ts:381-399 | For bytes of any length, the announced interval and the body agree exactly when the bytes reach its end. |
| IpnsRecord.DecodeEncoded | apps/api/src/ipns/ipns-record-parser.ts:28-41 | A varint is read back with its length, or refused as too long, exactly by its size. |
| IpnsRecord.VarintRoundTripIff | apps/api/src/ipns/ipns-record-parser.ts:28-41 | Reading inverts writing exactly for values below 2^70, whatever bytes follow. |
| IpnsRecord.VarintBytes | apps/api/src/ipns/ipns-record-parser.ts:28-41 | Each byte of a varint carries seven bits, lowest first, and all but the last have the high bit set, as many as the number needs. |
| IpnsRecord.UnendedVarint | apps/api/src/ipns/ipns-record-parser.ts:28-41 | A varint that the buffer cuts off and one that goes on past ten bytes are told apart as the reader does. |
| IpnsRecord.ReadVarint | apps/api/src/ipns/ipns-record-parser.ts:28-41 | The loop over position, shift and result computes the decoding function, errors included. |
| IpnsRecord.ReadPayload | apps/api/src/ipns/ipns-record-parser.ts:82-113 | One payload is read as the decoder says, by wire type; a fixed-width one may step past the end. |
| IpnsRecord.ReadField | apps/api/src/ipns/ipns-record-parser.ts:77-113 | A tag and its payload are read as the field decoder says. |
| IpnsRecord.DecodeInvertsEncode | apps/api/src/ipns/ipns-record-parser.ts:75-114 | Decoding the encoding of any fields of wire types 0, 1, 2 and 5, known or not, in any order, returns them. |
| IpnsRecord.WireFormat | apps/api/src/ipns/ipns-record-parser.ts:75-113 | The encoding is the wire format: field number and wire type in one varint, then a varint, eight bytes, a length with its bytes, or four bytes. |
| IpnsRecord.WrittenInOrder | apps/api/src/ipns/ipns-record-parser.ts:75-114 | Fields are written one after another. |
| IpnsRecord.WrittenIsWellFormed | apps/api/src/ipns/ipns-record-parser.ts:75-114 | Every field an encoder of 64-bit numbers can write is well formed. |
| IpnsRecord.DecodeAfter | apps/api/src/ipns/ipns-record-parser.ts:75-114 | Whatever bytes follow well-formed fields are decoded, or refused, as they would be alone. |
| IpnsRecord.ParseIpnsRecord | apps/api/src/ipns/ipns-record-parser.ts:68-130 | On every byte string the loop ends and returns the record of the decoded fields, or the first error. |
| IpnsRecord.LastIsLast | apps/api/src/ipns/ipns-record-parser.ts:86-105 | The value found for a field number and wire type is that of a field with none of its kind after it. |
| IpnsRecord.ParseInvertsEncode | apps/api/src/ipns/ipns-record-parser.ts:68-130 | Parsing the encoding of any well-formed fields gives the record they describe. |
| IpnsRecord.ParsedValue | apps/api/src/ipns/ipns-record-parser.ts:86-113 | Signed or not, the record has the value of its last length-delimited field 1. |
| IpnsRecord.ParsedSequence | apps/api/src/ipns/ipns-record-parser.ts:86-129 | Signed or not, it has the sequence number of its last varint field 5. |
| IpnsRecord.ParsedWithoutSequence | apps/api/src/ipns/ipns-record-parser.ts:68-86 | Without such a field the number is 0. |
| IpnsRecord.MissingValueIff | apps/api/src/ipns/ipns-record-parser.ts:116-129 | Well-formed fields are refused exactly when no value is among them. |
| IpnsRecord.ParsedSignature | apps/api/src/ipns/ipns-record-parser.ts:120-129 | The signature is made of the last fields 8 and 9 and of bytes 4 to 35 of the last field 7, when that has 36 bytes starting with 08 01 12 20; with another field 7 there is none. |
| IpnsRecord.IncompleteSignature | apps/api/src/ipns/ipns-record-parser.ts:120-129 | With one of the three fields missing there is none. |
| IpnsRecord.TooLongField | apps/api/src/ipns/ipns-record-parser.ts:92-97 | A length beyond the end of the buffer is refused as such, whatever well-formed fields come before. |
| IpnsRecord.UnknownWireType | apps/api/src/ipns/ipns-record-parser.ts:75-114 | So is a wire type 3, 4, 6 or 7. |
| IpnsRecord.CutFixedField | apps/api/src/ipns/ipns-record-parser.ts:106-113 | A fixed-width field that the buffer cuts off is skipped like a whole one. |
| IpnsRecord.SignatureAllOrNothing | apps/api/src/ipns/ipns-record-parser.ts:120-129 | Signature, data and a 32-byte key are returned together, when all three are there and the key is wrapped as Ed25519, or not at all. |
| IpnsRecord.SignedRecordRoundTrip | apps/api/src/ipns/ipns-record-parser.ts:68-130 | A signed record is returned whole from any order of its five fields among any skipped fields, its value being the decoded text. |
| TeeWorker.DecryptIpnsKey | tee-worker/src/services/key-manager.ts:23-33 | Decryption succeeds exactly for the epoch the key is sealed for; the key pair's buffer is zero afterwards either way. |
| TeeWorker.DecryptWithFallback | tee-worker/src/services/key-manager.ts:47-71 | The key is found exactly when it is sealed for the current or the given previous epoch, which is named; both key pairs' buffers are zero once they were fetched. |
| TeeWorker.ClearedIff | tee-worker/src/services/key-manager.ts:23-71 | The buffers that are zero after an entry: the current key pair's, the previous one's when the current one did not open the key, and the IPNS key's when either did. |
| TeeWorker.HandleEntry | tee-worker/src/routes/republish.ts:56-119 | One turn of the loop gives the entry's reply; the IPNS key's buffer and those of the key pairs it fetched are zero afterwards, whether signing succeeds or fails. |
| TeeWorker.Replies | tee-worker/src/routes/republish.ts:52-126 | One reply an entry, each the reply to the entry at its own position. |
| TeeWorker.SuccessesAre | tee-worker/src/routes/republish.ts:52-126 | The number of successes is that of the successful replies. |
| TeeWorker.Republish | tee-worker/src/routes/republish.ts:52-126 | The route returns that list and counts its successes and its failures, and every private key buffer it filled is zero. |
| TeeWorker.ReplyKeepsKey | tee-worker/src/routes/republish.ts:63-83 | An entry is signed exactly when the current or the previous epoch opens its key; the reply carries its name and, on success, a record over the stored CID and the stored number plus one under the very key sealed, which is re-sealed for the current epoch exactly when it was not before. |
| TeeKeyState.InitializedConsistent | apps/api/src/tee/tee-key-state.service.ts:56-73 | Initializing keeps key state and log consistent. |
| TeeKeyState.RotatedConsistent | apps/api/src/tee/tee-key-state.service.ts:80-121 | Rotating extends the log as an unbroken from/to chain that ends at the stored current epoch. |
| TeeKeyState.DeprecatedConsistent | apps/api/src/tee/tee-key-state.service.ts:149-172 | Deprecating keeps the chain, and clears a previous epoch only after its whole grace period. |
| TeeKeyState.DeprecatesIff | apps/api/src/tee/tee-key-state.service.ts:155-168 | A stored previous epoch is cleared exactly when its four weeks since the last logged rotation are over and it is not epoch 0. |
| TeeKeyState.EpochZeroStays | apps/api/src/tee/tee-key-state.service.ts:155-158 | Started at epoch 0, rotated to epoch 1 and deprecated after four weeks or more, the service still holds epoch 0 and its key. |
| TeeKeyState.TeeKeyStateService.InitializeEpoch | apps/api/src/tee/tee-key-state.service.ts:56-73 | The row holds the epoch and key given and no previous ones; a second initialization is refused and changes nothing. |
| TeeKeyState.TeeKeyStateService.RotateEpoch | apps/api/src/tee/tee-key-state.service.ts:80-121 | The row holds the new epoch and key, the old ones as previous and the end of four weeks of grace, and the log has one more entry from the old to the new; without a row it is refused. |
| TeeKeyState.TeeKeyStateService.DeprecatePreviousEpoch | apps/api/src/tee/tee-key-state.service.ts:149-172 | The previous epoch and key are cleared exactly when there is one other than 0 and its grace is over; current epoch, current key and log stay. |
| Republish.SettleKeepsRowOk | apps/api/src/republish/republish.service.ts:141-163 | After any outcome: active means no failures, retrying one to nine, stale exactly ten. |
| Republish.FailedBacksOff | apps/api/src/republish/republish.service.ts:386-413 | One failure more: the wait is 30 seconds doubled for each failure, at most an hour, and the tenth makes the row stale for a year; key, CID and number stay. |
| Republish.SettledActiveIff | apps/api/src/republish/republish.service.ts:131-190 | A row is active, due in six hours and has the new number exactly when a complete successful reply reached it and its record was published; it takes over a re-sealed key exactly when the reply has one. |
| Republish.RepublishService.EnrollFolder | apps/api/src/republish/republish.service.ts:260-299 | A new row is active with no failures; an existing one gets the key, CID and sequence number and keeps its retry state. It is due in six hours, and no other row changes. |
| Republish.RepublishService.UnenrollIpns | apps/api/src/republish/republish.service.ts:305-313 | Exactly the one row is removed. |
| Republish.RepublishService.ReactivateStaleEntries | apps/api/src/republish/republish.service.ts:365-380 | Every stale row, and no other, becomes active with no failures and due now. |
| Republish.RepublishService.HandleEntryFailure | apps/api/src/republish/republish.service.ts:386-413 | The row fails once more and all others stay. |
| Republish.RepublishService.ProcessResult | apps/api/src/republish/republish.service.ts:131-190 | One row is settled by its reply and its publish, and no other changes. |
| Republish.RepublishService.ProcessBatch | apps/api/src/republish/republish.service.ts:100-192 | A batch settles its rows in order, whether the TEE answers, answers short or does not answer. |
| Republish.RepublishService.ProcessRepublishBatch | apps/api/src/republish/republish.service.ts:66-202 | Every due row is settled exactly once by the reply at its own position, no other row changes, and succeeded plus failed is processed, with succeeded counting the rows that won. |
| Republish.RepliesReachTheirRows | apps/api/src/republish/republish.service.ts:100-139 | Across the two processes, the reply a row receives is signed with that row's key over its own CID and its next number under its own name, exactly when the key opens and signing works; a full answer leaves no row without a reply. |
| Republish.ReplyForIs | apps/api/src/republish/republish.service.ts:88-139 | Rows are sent a hundred to a request, the last one shorter, and a reply belongs to the row at its position. |
| Republish.FullAnswersReachAll | apps/api/src/republish/republish.service.ts:100-139 | A worker that answers every request in full gives every due row its reply. |
| Republish.WinnersIff | apps/api/src/republish/republish.service.ts:141-163 | The rows counted as succeeded are those with a complete successful reply whose record was published. |
| EpochRuns.ServiceBatchIsEvent | apps/api/src/republish/republish.service.ts:66-202 | What the batch loop leaves, answered by the worker, is one batch event of the combined system. |
| EpochRuns.BatchDoes | apps/api/src/republish/republish.service.ts:131-190 | In a batch a due row succeeds exactly when its reply came, its key is sealed for the current or previous epoch, and signing and publishing worked; then its number grows by one, its key is sealed for the current epoch and its CID stays. Otherwise it fails, and rows not due stay. |
| EpochRuns.StepKeepsInv | apps/api/src/republish/republish.service.ts:141-163 | Each event, whatever clients enrol, keeps every row's retry state, its CID equal to the one last enrolled and its sequence number equal to the enrolled one plus its successes, and the rotation log an unbroken chain. |
| EpochRuns.StepKeepsKeyIff | apps/api/src/republish/republish.service.ts:141-163 | A row keeps its own key, sealed for the epoch it names, exactly when the event does not enrol anything else in its place. |
| EpochRuns.StepDecryptableIff | tee-worker/src/services/key-manager.ts:47-71 | A decryptable row stays so exactly when its own enrolment, a rotation or a clearing deprecation fits the epoch its key is sealed for, whatever becomes of other rows. |
| EpochRuns.RotateKeepsRowIff | tee-worker/src/services/key-manager.ts:47-71 | After a rotation a row is decryptable exactly when it was sealed for the epoch just left or the one entered. |
| EpochRuns.DeprecateKeepsRowIff | apps/api/src/tee/tee-key-state.service.ts:149-172 | After a clearing deprecation it is decryptable exactly when sealed for the current epoch. |
| EpochRuns.UndecryptableRowFails | tee-worker/src/routes/republish.ts:104-118 | A row no stored epoch opens fails in every batch and keeps its key and sequence number. |
| EpochRuns.RunKeepsInv | apps/api/src/republish/republish.service.ts:141-163 | Over every run of rotations, deprecations, enrolments of anything, and batches of due rows: active means no failures, retrying one to nine, stale exactly ten, the CID is the one last enrolled, sequence numbers count successes, and the rotation log is an unbroken chain. |
| EpochRuns.RunKeepsKeyIff | apps/api/src/republish/republish.service.ts:141-163 | Over every run a row holds its key, sealed for the epoch it names, in every state exactly when all its own enrolments do. |
| EpochRuns.RunDecryptableIff | tee-worker/src/services/key-manager.ts:47-71 | Over every run a row is decryptable in every state exactly when every event fits the epoch its key is then sealed for. |
| EpochRuns.RefreshedStaysDecryptable | apps/api/src/republish/republish.service.ts:141-163 | An honestly enrolled row that is republished or enrolled under the current epoch before each rotation and clearing deprecation is decryptable in every state. |
| EpochRuns.RunFromStart | apps/api/src/tee/tee-key-state.service.ts:56-121 | All of this from the empty system. |
| FileVersions.StepAccounted | apps/web/src/services/file-metadata.service.ts:279-309 | One update, restore or deletion moves each CID to exactly one of its four places and respects the cap. |
| FileVersions.RunAccounted | apps/web/src/services/file-metadata.service.ts:268-474 | Over every run with fresh CIDs, whatever the clock does, each CID that was ever current is in exactly one of current, kept versions, unpinned, overwritten, and the list has at most ten. |
| FileVersions.UnpinnedIsUnreferenced | apps/web/src/hooks/useFolder.ts:969-973 | So nothing handed to unpin is still the current content or a kept version. |
| FileVersions.UpdateDoes | apps/web/src/services/file-metadata.service.ts:243-309 | A published update replaces the content; forced, first, or fifteen minutes after the newest version, it puts the old content at the head of the list, keeps the nine newest and unpins a tenth; otherwise the list stays and the old content is overwritten. |
| FileVersions.RestoreDoes | apps/web/src/services/file-metadata.service.ts:351-404 | A published restore makes the version current with its own mode and moves the old content to the head of the list; an index out of range changes nothing. |
| FileVersions.DeleteDoes | apps/web/src/services/file-metadata.service.ts:458-474 | A published deletion takes just that version off the list and unpins its CID. |
| FileVersions.UnpublishedDoes | apps/web/src/hooks/useFolder.ts:969-973 | A call that is not published, or names a negative index, changes nothing and unpins nothing. |
| FileVersions.RunNewestFirst | apps/web/src/services/file-metadata.service.ts:283-297 | Under a clock that does not go back the list stays newest first over every run. |
| FileVersions.RunSpaced | apps/web/src/services/file-metadata.service.ts:243-251 | Under a clock that does not go back, with only unforced updates and deletions, versions stay at least fifteen minutes apart. |
| FileVersions.RestoreUndone | apps/web/src/services/file-metadata.service.ts:374-404 | Within the cap a restore prunes nothing and keeps the length, and restoring the newest version next brings the old content back. |
| FileVersions.StepLabelledIff | apps/web/src/services/file-metadata.service.ts:268-474 | A call keeps the current content and all versions under the modes they were encrypted with exactly when it is not a published update to content of another mode. |
| FileVersions.RunLabelledIff | apps/web/src/services/file-metadata.service.ts:268-474 | Over a run all recorded modes are right in every state exactly when no call is such an update. |
| FileVersions.TextRecordedAsMedia | apps/web/src/services/file-metadata.service.ts:273-309 | Media content replaced by text encrypted in the other mode: the text is current and recorded under the media mode. |
| Shares.SharesService.CreateShare | apps/api/src/shares/shares.service.ts:31-113 | A share is refused in exactly the three cases; otherwise it is in the table as given, every other share is kept unchanged unless it is a revoked one of the same sharer, recipient and item, and one row a triple is kept. |
| Shares.SharesService.RevokeShare | apps/api/src/shares/shares.service.ts:211-224 | Only the sharer dates the one share; all others stay. An unknown share and one by somebody else are told apart. |
| Shares.SharesService.GetPendingRotations | apps/api/src/shares/shares.service.ts:264-273 | Exactly the user's revoked shares are listed. |
| Shares.SharesService.CompleteRotation | apps/api/src/shares/shares.service.ts:279-296 | Only a revoked share of the caller is removed. |
| Shares.SharesService.UpdateShareEncryptedKey | apps/api/src/shares/shares.service.ts:302-319 | Only the sharer replaces the one wrapped key. |
| Shares.FewerIsSound | apps/api/src/shares/shares.service.ts:211-319 | Removing shares or changing keys and dates keeps at most one row a triple. |
| Shares.RewrapAll | apps/web/src/services/share.service.ts:406-424 | The loop gives the new key to exactly the remaining recipients whose request reaches the server, and reports whether any failed for the client, an unheard answer included. |
| Shares.CompleteAll | apps/web/src/services/share.service.ts:434-441 | The loop removes exactly the revoked shares whose request arrives. |
| Shares.ExecuteLazyRotation | apps/web/src/services/share.service.ts:386-447 | Shares afterwards are those of the value-level rotation; an aborted one returns no key and its buffer is zero. |
| Shares.CheckAndRotateIfNeeded | apps/web/src/services/folder.service.ts:967-1030 | At every failure point, shares, published key and contents are those of the value-level step; a key is returned when nothing was rotated, or when the rotation completed and the client was told so. |
| ShareRuns.CompletedRotationReachesAllIff | apps/web/src/services/share.service.ts:403-424 | After a completed rotation every active share opens to the published key exactly when the client's list named every active share. |
| ShareRuns.EmptyListLocksOut | apps/web/src/services/share.service.ts:443-444 | A rotation with the emptied list leaves every active share on a key the metadata no longer uses. |
| ShareRuns.RotationTouches | apps/web/src/services/share.service.ts:386-447 | However stale the list: revoked shares never get the new key, only revoked shares of the folder are removed, and an aborted rotation removes none. |
| ShareRuns.RotationKeepsReadersIff | apps/web/src/services/share.service.ts:426-432 | With any list, readers keep access exactly when no rotation is attempted, when it completes with a list that names every active share, or when no re-wrap reaches a share the server has. |
| ShareRuns.UpToDateListsAll | apps/web/src/services/share.service.ts:52-66 | A list fetched anew names every active share, so only stale lists leave readers out. |
| ShareRuns.RotationKeepsOutsidersOutIff | apps/web/src/services/folder.service.ts:988-1022 | After a rotation the metadata key is unknown to users without a share exactly when it completed, or when it was unknown to them before and the rotation does not remove the share of a revoked user who holds the key without publishing. |
| ShareRuns.CompletedRotationShutsOut | apps/web/src/services/folder.service.ts:988-1022 | A completed rotation keeps the new key from everybody without a share, even when such users held the old one. |
| ShareRuns.OutcomeIff | apps/web/src/services/folder.service.ts:975-1022 | Which of the four outcomes a rotation has, by the guards it passes. |
| ShareRuns.AttemptedIff | apps/web/src/services/folder.service.ts:975-986 | A rotation is attempted exactly when there is a keypair and some share of the folder by its owner is revoked and still there. |
| ShareRuns.AllAnsweredIff | apps/web/src/services/share.service.ts:403-432 | It passes its re-wraps exactly when the server has every listed share of the item and, for each that is not revoked, request and answer arrive. |
| ShareRuns.RemovedIff | apps/web/src/services/share.service.ts:434-441 | It removes exactly the revoked shares of the folder whose removal arrives, when all re-wraps passed. |
| ShareRuns.RewrappedIff | apps/web/src/services/share.service.ts:406-424 | It gives the new key, wrapped for the recipient, to exactly the listed active shares whose request arrives, and changes no other share. |
| ShareRuns.RekeyedIff | apps/web/src/services/folder.service.ts:988-1022 | The metadata gets the new key exactly when all re-wraps passed, the name resolved, the client held the current key and the publish worked. |
| ShareRuns.AbortStrandsReader | apps/web/src/services/share.service.ts:426-432 | With one of two requests lost, the rotation aborts and the other reader holds a key the metadata does not use. |
| ShareRuns.UnpublishedForgetsD | apps/web/src/services/folder.service.ts:998-1010 | When the name does not resolve, the revoked user's share is gone while the key that user holds stays in use. |
| ShareRuns.CleanRotationLeavesReadersOnly | apps/web/src/services/folder.service.ts:996-1022 | After a completed rotation with a list of every active share and all removals arrived, the new key was wrapped for a user exactly when the user has an active share, whoever held the old key. |
| ShareRuns.UnpublishedRotationIsFinal | apps/web/src/services/folder.service.ts:975-1010 | A rotation that did not publish leaves pending exactly the shares whose removal was lost; when none was, every later check finds nothing pending and rotates nothing. |
| ShareRuns.GiveDoes | apps/api/src/shares/shares.service.ts:31-113 | In a run a share is given with the current key unless it is with oneself or an active one is there; only a revoked record of it is replaced. |
| ShareRuns.RevokeDoes | apps/api/src/shares/shares.service.ts:211-224 | The owner's revocation dates one share. |
| ShareRuns.GiveKeeps | apps/api/src/shares/shares.service.ts:31-113 | Sharing with the current key keeps outsiders out. |
| ShareRuns.GiveKeepsBase | apps/api/src/shares/shares.service.ts:31-113 | It keeps readers reading, and each share's key wrapped for its own recipient. |
| ShareRuns.RevokeKeeps | apps/api/src/shares/shares.service.ts:211-224 | Revoking keeps outsiders out: the revoked user stays on record until rotation. |
| ShareRuns.RevokeKeepsBase | apps/api/src/shares/shares.service.ts:211-224 | It keeps the other readers reading. |
| ShareRuns.StepKeepsOutsidersOutIff | apps/web/src/services/folder.service.ts:967-1030 | Giving, revoking or rotating, with a list however stale, keeps the key from users without a share exactly when it forgets no reader. |
| ShareRuns.RunKeepsOutsidersOutIff | apps/web/src/services/folder.service.ts:967-1030 | Over every run, with stale lists and rotations failing anywhere, nobody without a share is ever given the metadata key exactly when no rotation forgets a reader. |
| ShareRuns.StepKeepsReadersIff | apps/web/src/services/share.service.ts:386-447 | Giving, revoking or rotating, with a list however stale and outsiders or not, keeps every reader reading exactly when a rotation reaches them all or none. |
| ShareRuns.RunKeepsReadersIff | apps/web/src/services/share.service.ts:386-447 | Over every run, with stale lists and whoever else holds the key, every active share opens the metadata throughout exactly when each rotation is not attempted, completes with a list of every active share, or reaches nobody. |
| ShareRuns.RunKeepsInv | apps/web/src/services/folder.service.ts:967-1030 | A run of such rotations that forgets no reader ends with every active share opening the metadata and nobody without a share given its key. |
| SharedNavigation.JumpIsRepeatedUp | apps/web/src/hooks/useSharedNavigation.ts:364-384 | Jumping to a breadcrumb is going up once for every breadcrumb behind it. |
| SharedNavigation.Navigation.NavigateUpTo | apps/web/src/hooks/useSharedNavigation.ts:360-384 | Going up in a loop leaves the stack, the shown key buffer and the levels with their key contents that the jump to that breadcrumb leaves. |
| SharedNavigation.Navigation.NavigateUp | apps/web/src/hooks/useSharedNavigation.ts:345-358 | The last level closes, its key zeroed, and the buffer below is shown with its contents untouched; at the bottom the list is shown. |
| SharedNavigation.Navigation.NavigateToRoot | apps/web/src/hooks/useSharedNavigation.ts:326-340 | The list is shown and every key buffer ever unwrapped is zero. |
| SharedNavigation.Navigation.NavigateToBreadcrumb | apps/web/src/hooks/useSharedNavigation.ts:364-384 | Levels above the crumb close with their keys zeroed and the others keep theirs; a negative index zeroes every key and goes on showing the folder. |
| SharedNavigation.Navigation.Unmount | apps/web/src/hooks/useSharedNavigation.ts:147-158 | Every key buffer ever unwrapped is zero. |
| SharedNavigation.Navigation.FinishShare | apps/web/src/hooks/useSharedNavigation.ts:180-243 | A failed or file share leaves its key zeroed and the view alone; a folder share keeps all dropped keys zeroed exactly when entered from the list, or when nothing unzeroed was open. |
| SharedNavigation.Navigation.StartSubfolder | apps/web/src/hooks/useSharedNavigation.ts:248-262 | The call captures the folder now shown and changes nothing else. |
| SharedNavigation.Navigation.FailSubfolder | apps/web/src/hooks/useSharedNavigation.ts:258-264 | A call that finds no key, or cannot unwrap it, changes nothing shown. |
| SharedNavigation.Navigation.FinishSubfolder | apps/web/src/hooks/useSharedNavigation.ts:264-320 | The subfolder opens exactly when the captured folder lists it and its listing was decrypted. A failure leaves the view and zeroes the new key; success pushes the captured folder and shows the subfolder, which opens one more level when the captured folder is still shown, and otherwise makes the key shown meanwhile unreachable without zeroing it. |
| SharedNavigation.StaleSubfolder | apps/web/src/hooks/useSharedNavigation.ts:248-320 | A click left for the list before its answer arrives ends with the list shown, an open key that is not zero, and a stacked one that is. |
| FileSize.SinceClearIff | apps/web/src/hooks/useFileSize.ts:50-58 | The recursive reading of "sent since the last clear" means just that. |
| FileSize.CachedIff | apps/web/src/hooks/useFileSize.ts:42-70 | A size is cached exactly when it is what the last answer to a request sent since the last clear reported. |
| FileSize.PendingIff | apps/web/src/hooks/useFileSize.ts:46-69 | The request a caller joins is the one sent for the name after everything else that happened to the name and after the last clear. |
| FileSize.JoinedIff | apps/web/src/hooks/useFileSize.ts:54-65 | The latest request sent since the last clear is joined exactly as long as no answer for its name has come, its own or that of an older request. |
| FileSize.SentTwice | apps/web/src/hooks/useFileSize.ts:54-65 | A late answer to a request from before a clear: a third request is sent while the second is still pending. |
| FileSize.FileSizes.FetchFileSize | apps/web/src/hooks/useFileSize.ts:42-70 | A cached size is returned; without one the request to join is waited for exactly when there is one, and otherwise a request is sent. |
| FileSize.FileSizes.Resolve | apps/web/src/hooks/useFileSize.ts:54-61 | Comparing generations writes the cache exactly as the history says, in every interleaving. |
| FileSize.FileSizes.Fail | apps/web/src/hooks/useFileSize.ts:62-65 | A failure leaves the cache as the history says. |
| FileSize.FileSizes.ClearFileSizeCache | apps/web/src/hooks/useFileSize.ts:140-144 | The cache is empty, and no request sent earlier will write it. |

## Left out

- Folder handlers run atomically here: interleavings of two handlers awaiting the network at once are not modelled.
- The folder handlers' publishes are either applied and acknowledged, or neither; for the requests of a key rotation the two are separate.
- Folder sequence numbers, modification times, renames, added files, and the unpinning of a deleted folder's file contents.
- Folders loaded from remote metadata, which are not checked for depth; the depth theorem is about local operations.
- FolderHandlers.FolderStore.HandleCreate: promises nothing about distinct names in the parent, because the source does not check them when creating.
- `clearFolders`, pending publishes and loading flags of the folder store.
- DecryptWorker.Worker.HandleFetch: MIME type and accept headers, tokens and progress messages are not part of the reply modelled.
- HttpRange.SelectRange: numbers above 2^53, which `parseInt` rounds, are exact here.
- DecryptWorker.Worker.RegisterStream: keeps the cached bytes of a name registered again with another CID, as the code does; replies then serve the bytes of the CID first fetched.
- IpnsRecord.ParseIpnsRecord: UTF-8 decoding itself is a parameter.
- Republish.RepublishService.ProcessRepublishBatch: one clock reading serves a whole run, the due query is a relation between table and list, and error texts, database failures, retry delays and the folder sequence synchronization are left out.
- EpochRuns.RefreshedStaysDecryptable: honest enrolment and timely refresh are hypotheses, because nothing in the code enforces them; the exact conditions without them are the two run theorems beside it.
- AES, ECIES, Ed25519, HKDF and CBOR internals, and the HTTP and database layers.
- `findCoveringShares`, re-wrapping for added items and the child keys of shares: propagation of keys to shares of parent folders.
- Shares: what a list says of a share the server still has is taken to be right, since those fields never change; public keys are identified with users. `checkAndRotateIfNeeded` has no caller in the web client; the runs call it before each modification, as its documentation intends.
- SharedNavigation: React's batching is not modelled, each handler sees the state the previous one left; the key cache and file downloads are left out.
- Device registry and approval, quota, authentication and the desktop client.
