# Verified model of authfs, zipfuse and virtmanager

This project models, in Dafny 4.11, the parts of Android's virtualization module whose correctness is
least obvious from reading them, and proves what they promise.

**authfs** is a file system whose files live on an untrusted server.

- A file to be read comes with an fs-verity Merkle tree. `Walk` computes which page and which slot of the
  serialized tree to read at each level, `Verifier` checks the hashes on the way up, and the proofs say
  that the honest tree is always accepted and that anything accepted is honest, unless the very page or
  chunk that was returned collides with the honest one.
- A file to be written keeps its leaf hashes in trusted memory. `Builder` is that set of leaves and the
  root folded from them, `Editor` maintains it under random-access writes, holes and resizes against a
  server (`FdServer`) that may hold anything, `Interleaving` covers writers that share an editor, and
  `Stack` composes the whole write and read path, over an honest server and over one that is not.
- `TreeShape`, `Merkle` and `Fsverity` hold the shape of the tree, the reference digest ("File digest
  computation" in the Linux kernel's Documentation/filesystems/fsverity.rst) and the 64-bit arithmetic;
  `Binding` shows that a digest determines the file; `Chunks` splits ranges at chunk boundaries.

**zipfuse** mounts a zip archive. `Inode` builds a tree of inodes in a flat vector from the archive's
listing, `Archive` says what that tree is in terms of the listing alone, `OpenFiles` is the sharing of
decompressed buffers between opens, and `Directory` is the paging of directory listings.

**virtmanager** starts VMs. `VirtManager` covers the CID allocator, the list of weak references, and the
monitor threads with their death callbacks as a step model, and `VmRuns` says what whole runs of it amount
to, over all interleavings, and that the manager's methods make its steps.

Conventions:

- SHA-256 is an arbitrary function `h` from byte strings to 32 bytes, passed as a parameter. Nothing
  assumes that it is injective; `KnowsZeros(h)`, where required, says that the stored hash of 4096 zero
  bytes is right. Results that depend on collision resistance name, as their alternative, the descriptor,
  page or chunk of the inputs at hand that differs from the expected one and has the same hash; that some
  collision exists somewhere does not satisfy them.
- A 64-bit overflow in the tree arithmetic is an explicit `Overflow` error, and a failed assertion or
  `unwrap` an explicit `Panicked` error. Debug-only assertions are not modelled.
- The server's files are any bytes. The ghost field `expected` of an editor is the file its tree vouches
  for: what its callers wrote, with the bytes that resizes adopted. `Tracks` says that the leaves are those
  of that file, and `Deceives` that the server holds a chunk that differs from the expected one and has the
  same hash.
- Names are sequences of characters that stand for bytes.

## Where the code and its description differ

The model follows the code in each case.

- The debug assertion in authfs/src/fsverity/builder.rs:113 compares with n where a consistent tree gives
  n - 1. It is not modelled, and neither is the one in authfs/src/fsverity/editor.rs:239, which can fail when a
  resize lands in the middle of a write.
- For a file of one chunk the builder returns the leaf, and the verifier always hashes one tree page.
  `BuilderVerifierAgree` gives the exact condition for agreement and `SingleChunkDisagrees` an instance.
- `resize` describes verifying the tail it reads back (authfs/src/fsverity/editor.rs:224-228) but does not
  compare it. `Editor.VerifiedFileEditor.Resize` states what it adopts, `CutIsTruncationIff` when that is a
  truncation, and `CutAdoptsAltered` an instance where it is not.
- `resize` replaces the leaf before the server has resized; if the server then fails, the leaf stays
  replaced. `FailedResizeHarmlessIff` says exactly when that is harmless, `FailedResizeSpoils` gives an
  instance where it is not, and `LeavesAfterFailedCut` says which file the tree then describes.
- A write records the size of the whole write with its first chunk, so a write that is cut short can leave
  the recorded size ahead of the file. `RecordedSizeRightIff` gives the exact condition on the file, the
  stored bytes and the range, and `RecordedSizeRunsAhead` an instance; `Interleaving.Safe` bounds it under concurrency.
- zipfuse's `release` computes the decremented count and does not store it. `ReclaimedIff` says exactly when
  the buffer is reclaimed and `OverlapLeaks` gives an instance where it is not.
- A directory entry without a mode gives its directory the default mode if it is the first entry to mention
  it and mode 0 otherwise. `TableModes` states the mode of every path.
- `vms()` is described as listing the VMs with Binder references; a VM whose monitor thread has not finished
  is listed too. `ListsExactlyTheLive` states which are, and `ListedWithoutReferences` is an instance.
- `read_chunks` compares the bytes read with the piece's length, not with its end in the chunk, so it can
  succeed past the stored end. `Stack.ReadChunks` states exactly when it fails and when its output is stored
  bytes only, and `ReadsPastEnd` is an instance where it is not.

## Model

| member | source | states |
|---|---|---|
| TreeShape.Log128CeilExact | authfs/src/fsverity/common.rs:41-46 | The leading-zeros formula is the least exponent h with 128^h >= n, for every non-zero u64 |
| TreeShape.HeightExact | authfs/src/fsverity/common.rs:49-53 | Packing the leaves h + 1 times leaves one hash exactly from the computed height on |
| Fsverity.MerkleTreeHeightIs | authfs/src/fsverity/common.rs:49-53 | For every non-zero size up to 2^64 - 2^19 - 1 the height is that of the chunk count; above it the rounding overflows |
| Merkle.HashAllPagesIsFileLeaves | authfs/src/fsverity/builder.rs:37-45 | Hashing all pages of hashes is hashing the zero-padded chunks of the file made of those hashes |
| Merkle.RootHashIsFileRoot | authfs/src/fsverity/builder.rs:101-129 | Folding leaf hashes to one gives the root defined by recursion on the file's bytes alone |
| Merkle.RootIsTopLevel | authfs/src/fsverity/builder.rs:112-127 | From two leaves up the root is the single hash on level height + 1 |
| Builder.CalculateRootHashIsRoot | authfs/src/fsverity/builder.rs:101-129 | The root folded by the computed height is the reference root for every leaf count; the only failure is a leaf count whose size in bytes is too large for the height to be computed, so `InvalidState` is unreachable |
| Builder.MerkleLeaves.UpdateHash | authfs/src/fsverity/builder.rs:73-85 | The leaf is replaced, missing leaves before it are hashes of zero chunks, the size only grows |
| Builder.LeavesAfterWrite | authfs/src/fsverity/builder.rs:73-85 | Replacing one leaf keeps the leaves those of the file after a write inside a chunk, also with a hole before it |
| Builder.LeavesAfterResize | authfs/src/fsverity/builder.rs:58-69 | Resizing the leaves follows growing the file, and shrinking it to a chunk boundary |
| Binding.DescriptorInjective | authfs/src/fsverity/common.rs:55-77 | The 256-byte descriptor determines root hash and 64-bit size |
| Binding.LittleEndianDecodes | authfs/src/fsverity/common.rs:62-67 | A field spells the number put there, least significant byte first |
| Binding.DescriptorLayout | authfs/src/fsverity/common.rs:59-76 | The 256 bytes by position: version 1, SHA-256, 2^12-byte blocks, no salt; the size in bytes 8 to 15, least significant first; the root in bytes 16 to 47; zeros elsewhere |
| Binding.LevelBinds | authfs/src/fsverity/builder.rs:37-45 | Equal hashed levels come from equal levels, or the two pages with the returned number collide |
| Binding.RootBinds | authfs/src/fsverity/builder.rs:101-129 | Equal roots of equally many leaves come from equal leaves, or the pages at the returned level and number of the two trees collide |
| Binding.LeavesBind | authfs/src/fsverity/builder.rs:32-35 | Equal leaves of files of one size mean equal files, or the chunks with the returned index collide |
| Binding.DescriptorBinds | authfs/src/fsverity/common.rs:55-77 | Equal descriptor hashes mean equal roots and sizes, or these two descriptors collide |
| Binding.DigestBinds | authfs/src/fsverity/common.rs:55-77 | Files with equal fs-verity digests are equal, or their descriptors, the named page of their trees or the named chunk of the two collide |
| Walk.LevelGeometryIs | authfs/src/fsverity/verifier.rs:81-89 | No intermediate overflows and the level size and hash offset are those of the tree, for every level of a file up to 2^61 bytes |
| Walk.WalkIsPath | authfs/src/fsverity/verifier.rs:71-101 | The computed steps are the pages and slots of the chunk's ancestors, leaf to root |
| Walk.WalkGeometry | authfs/src/fsverity/verifier.rs:76-101 | One step per level; top level is page 0 alone; levels occupy consecutive page ranges; level x reads slot i/128^x mod 128 of its page i/128^(x+1), inside the level |
| Walk.WalkOverflows | authfs/src/fsverity/verifier.rs:82-86 | Every walk over a file above 2^61 bytes overflows |
| Walk.WalkFitsIff | authfs/src/fsverity/verifier.rs:76-101 | For chunks of the file, the walk fits in 64 bits exactly up to 2^61 bytes; in an empty file it panics |
| Verifier.HonestWalk | authfs/src/fsverity/verifier.rs:39-64 | Over the root-first serialization of the honest tree every walk succeeds and ends in the hash of the root page |
| Verifier.HonestPage | authfs/src/fsverity/verifier.rs:103-110 | Page p of level x sits at page LevelStart + p of the root-first serialization |
| Verifier.BuilderVerifierAgree | authfs/src/fsverity/verifier.rs:39-111 | For every file up to 2^61 bytes and every chunk of it, builder and verifier compute the same root exactly if the file has two chunks or more, or the hash maps the page of its only leaf to that leaf |
| Verifier.SingleChunkDisagrees | authfs/src/fsverity/verifier.rs:78-79 | A one-chunk file on which they differ |
| Verifier.HonestReader | authfs/src/fsverity/verifier.rs:135-170 | Opening the honest tree succeeds if its digest is signed, and then reading any chunk returns it |
| Verifier.FormattedDigestLayout | authfs/src/fsverity/verifier.rs:113-126 | The signed message by position: magic, algorithm 1, digest size 32, digest |
| Verifier.OpensIff | authfs/src/fsverity/verifier.rs:136-156 | Opening succeeds exactly if the root page is read in full and its signature accepted; the error in every other case |
| Verifier.CheckFails | authfs/src/fsverity/verifier.rs:52-63 | A walk fails at the first page that cannot be read or does not hold the hash below it |
| Verifier.ReadsIff | authfs/src/fsverity/verifier.rs:160-169 | A read returns what the file reader returned exactly if the walk ends in the root hash; the error otherwise, and the panic on an empty file |
| Verifier.StepsSound | authfs/src/fsverity/verifier.rs:52-63 | If the checks from level x up end in the honest root, they started from the honest hash, or the page the tree returned for the named level collides with the honest page there |
| Verifier.ReadChunkSound | authfs/src/fsverity/verifier.rs:159-170 | Over any readers, a read that succeeds against the honest root returned the honest chunk, or a chunk that collides with it, or the tree returned a page on the path that collides with the honest one |
| Verifier.SignedReadSound | authfs/src/fsverity/verifier.rs:135-170 | From signature to chunk, for every non-empty file: if the signature vouches only for the digest of the honest tree of d, a reader that opened and a later read that succeeds give the size and the chunk of d, or the opened descriptor, the returned chunk or a returned page collides with the honest one; from two chunks up that digest is the fs-verity digest of d |
| Chunks.ChunkedSizeIter.Next | authfs/src/common.rs:41-53 | Yields the piece up to the next boundary and leaves the rest |
| Chunks.RangesTile | authfs/src/common.rs:24-54 | The pieces tile the range in order, none is empty or crosses a boundary, all but the first are aligned |
| FdServer.FdService.ReadFile | authfs/fd_server/src/main.rs:113-125 | The part of the requested range inside the file; the invalid-argument and unknown-file errors exactly for such requests; an I/O error only from a server whose reads may fail |
| FdServer.FdService.WriteFile | authfs/fd_server/src/main.rs:188-208 | Each refusal exactly for its kind of request; otherwise a prefix, not empty unless the buffer is, is spliced into that file; an error changes nothing |
| FdServer.FdService.Resize | authfs/fd_server/src/main.rs:210-226 | Refusals in order; otherwise truncation or zero extension of that file; an error changes nothing |
| FdServer.RemoteFileEditor.ReadChunk | authfs/src/file/remote_file.rs:30-47 | The chunk of the stored file in the front of the buffer, the rest of the buffer untouched |
| FdServer.RemoteFileEditor.WriteAt | authfs/src/file/remote_file.rs:110-120 | A prefix of the buffer reaches this file and no other |
| FdServer.RemoteFileEditor.WriteAllAt | authfs/src/file.rs:42-51 | Short writes add up to one splice of the whole buffer; on error, of the written prefix |
| FdServer.RemoteFileEditor.Resize | authfs/src/file/remote_file.rs:122-131 | The stored file is resized, no other changes |
| Editor.VerifiedFileEditor.NewHashForIncompleteWrite | authfs/src/fsverity/editor.rs:98-127 | Hash of the patched chunk, based on stored bytes that match the leaf, or on zeros if there is no leaf; an error means that the chunk exists, and "inconsistent" that it does not match |
| Editor.VerifiedFileEditor.NewChunkHash | authfs/src/fsverity/editor.rs:129-151 | The same for whole chunks, which are never read back |
| Editor.VerifiedFileEditor.WriteChunk | authfs/src/fsverity/editor.rs:175-215 | One chunk under the lock, over any leaves: stored bytes, leaves, size and refusal exactly; leaves of the expected file stay so unless that chunk collides |
| Editor.VerifiedFileEditor.WritePieces | authfs/src/fsverity/editor.rs:172-217 | The loop over the chunk iterator, over any leaves: one splice of the applied prefix into the expected file and of the written prefix into the stored one, the leaves patched accordingly, and no piece applied from the first mismatch on |
| Editor.VerifiedFileEditor.WriteAt | authfs/src/fsverity/editor.rs:159-218 | For any leaves and whatever the server holds: exactly the reported prefix is applied; the leaves of the chunks written are the hashes of their new content and no others change; nothing is applied from the first chunk on that must be read back and does not match; an inconsistency error changes nothing. If the server takes every write, the reply is an error only if nothing was applied; if it serves every read, a write that failed is reported. Leaves of the expected file stay so unless the server deceives, and then a server that serves every request stops the write exactly at the first altered chunk, and the recorded size stays right exactly under the condition of RecordedSizeRightIff |
| Editor.HonestAcceptsAll | authfs/src/fsverity/editor.rs:110-120 | A server that returns what was written never causes an inconsistency |
| Editor.MatchedIsAccepted | authfs/src/fsverity/editor.rs:110-120 | Against the leaves of a file, the chunks that match are the unaltered ones, unless the server deceives |
| Editor.RecordedSizeRightIff | authfs/src/fsverity/editor.rs:211-216 | The recorded size is right after a write exactly if the write ends inside the file, or no chunk it must read back was altered, or already its first one was |
| Editor.RecordedSizeRunsAhead | authfs/src/fsverity/editor.rs:211-216 | A cut-short write after which it is not |
| Editor.VerifiedFileEditor.Resize | authfs/src/fsverity/editor.rs:220-254 | For any leaves and whatever the server holds: stored file, leaves, size and expected file (with the tail it adopted) after a resize; what a failure leaves behind; leaves of the expected file stay so in every case |
| Editor.LeavesAfterCut | authfs/src/fsverity/editor.rs:233-251 | Replacing the leaf of the cut chunk and dropping the rest gives the leaves of the adopted file |
| Editor.CutIsTruncationIff | authfs/src/fsverity/editor.rs:233-248 | The adopted file is the truncated one exactly if the server returned the kept head of the cut chunk |
| Editor.CutAdoptsAltered | authfs/src/fsverity/editor.rs:233-248 | A truncation that adopts a byte the server altered |
| Editor.FailedResizeHarmlessIff | authfs/src/fsverity/editor.rs:246-250 | Whatever the server returned, a resize that it refuses after the leaf was replaced leaves the tree describing the file exactly if the chunk exists and the returned chunk, cut, is that chunk or collides with it |
| Editor.FailedHonestResizeHarmlessIff | authfs/src/fsverity/editor.rs:246-250 | If the server returned the right bytes: exactly if the bytes to be cut off are zero, or a collision of those two chunks |
| Editor.LeavesAfterFailedCut | authfs/src/fsverity/editor.rs:246-250 | After a refused resize the leaves are those of the file with that one chunk replaced by what the server returned, cut |
| Editor.FailedResizeSpoils | authfs/src/fsverity/editor.rs:246-250 | A refused resize that leaves a wrong leaf |
| Editor.VerifiedFileEditor.ReadChunk | authfs/src/fsverity/editor.rs:257-261 | Reads are passed through to the stored file |
| Editor.VerifiedFileEditor.CalculateFsverityDigest | authfs/src/fsverity/editor.rs:91-96 | The digest of a file whose recorded size is right is the fs-verity digest computed from its bytes alone; with the size ahead, only the size in the descriptor differs |
| Editor.EditorDigestsBind | authfs/src/fsverity/editor.rs:91-96 | Editors with equal digests hold equal files, or the trees of the two files collide in the named place |
| Interleaving.WriteNextSafe | authfs/src/fsverity/editor.rs:172-217 | A chunk of any writer keeps the state safe and is never refused |
| Interleaving.LockedWrite | authfs/src/fsverity/editor.rs:175-215 | On an editor whose file, leaves and size are those of the state, the locked part of a write makes exactly the step of the model, and is refused exactly if the step takes the writer out |
| Interleaving.LockedResize | authfs/src/fsverity/editor.rs:220-254 | The same for a resize |
| Interleaving.StepSafe | authfs/src/fsverity/editor.rs:159-255 | Every step of every writer and resizer keeps the state safe |
| Interleaving.ReachableSafe | authfs/src/fsverity/editor.rs:159-255 | In every reachable state the leaves are those of the stored file, and the recorded size is ahead of it only by a write in flight that ends exactly there |
| Interleaving.QuiescentDigest | authfs/src/fsverity/editor.rs:91-96 | With no write in flight (and a size whose height can be computed) the recorded size is the file's and the digest that of the stored bytes |
| Interleaving.SoloWrite | authfs/src/fsverity/editor.rs:159-218 | From any reachable state, a write that nobody interferes with is one splice of its whole buffer |
| Interleaving.LoneWriterLands | authfs/src/fsverity/editor.rs:172-217 | A writer that overlaps no other, without resizes, finds all its applied bytes in the file under every interleaving |
| Stack.ReadChunks | authfs/src/fusefs.rs:142-175 | Output is the stored bytes of the range, zeros past their end, for any file size passed; stored bytes only, exactly if the range ends inside the stored file; with a server that serves every request it fails exactly if the last chunk of the range holds fewer bytes than wanted from it |
| Stack.ChunksCoverIff | authfs/src/fusefs.rs:151-162 | The check of every piece succeeds exactly if it does for the last one |
| Stack.ReadsPastEnd | authfs/src/fusefs.rs:160-166 | A range for which the read succeeds and returns zeros past the stored end |
| Stack.RunOp | authfs/src/fsverity/editor.rs:159-255 | A write or resize on an editor in step with its server is that operation on the abstract array, and keeps them in step |
| Stack.Execute | authfs/src/fsverity/editor.rs:159-255 | After any run of writes and resizes on a new file, the server's file is the abstract array, the digest is the from-scratch digest of it, and a read returns the slice |
| Stack.CallUntrusted | authfs/src/fsverity/editor.rs:159-255 | One call, whatever the server holds and whether or not it serves requests: its effect on what the editor vouches for, as far as the reply tells, and tracking kept unless deceived |
| Stack.ExecuteUntrusted | authfs/src/fsverity/editor.rs:78-255 | After any run of writes and resizes against a server that may fail any request and whose file is replaced by arbitrary bytes before every call: the replies tell what the editor vouches for, its leaves are those of exactly that file and its digest is the from-scratch digest of it once the size is right, or at some call the server deceived it; if every reply is a success or an inconsistency error, that file is determined by the replies |
| Inode.InodeTable.Add | zipfuse/src/inode.rs:152-162 | Adding to a directory keeps the table a tree, with exactly one more path, its node and its mode; the parent lists it as a directory exactly if it is one |
| Inode.InodeTable.SetMode | zipfuse/src/inode.rs:200-204 | Changes the mode of one path and nothing else |
| Inode.InodeTable.AddComponent | zipfuse/src/inode.rs:186-219 | One path component: found, created or rejected as in the path map, with its effect on modes |
| Inode.InodeTable.AddEntry | zipfuse/src/inode.rs:177-220 | One entry: the nodes and modes of the path map, or its error; the table is a tree even if the entry is rejected halfway |
| Inode.InodeTable.FromZip | zipfuse/src/inode.rs:165-223 | The table is a tree with the nodes and modes of the path map of the listing, or the build fails with the error of the path map |
| Inode.AddedIsTree | zipfuse/src/inode.rs:152-162 | Links, kinds and numbering of a tree are kept by adding an inode |
| Inode.ResolveIsIndex | zipfuse/src/inode.rs:142-148 | Following a path with `find` reaches exactly the inode of that path |
| Inode.OneIncomingEntry | zipfuse/src/inode.rs:105-162 | Every inode above the root has exactly one incoming entry, from a smaller-numbered directory, which says directory for directories and file for files |
| Inode.ListedAs | zipfuse/src/inode.rs:142-162 | The directory above a path lists for it the inode it resolves to, as a directory exactly if it is one |
| Inode.RootReachesAll | zipfuse/src/inode.rs:120-148 | The root reaches exactly the inodes that `get` knows: all but the invalid one |
| Archive.PathMapDecides | zipfuse/src/inode.rs:176-221 | Every path holds what the first entry at or below it put there |
| Archive.AcceptedIff | zipfuse/src/inode.rs:176-221 | A listing is accepted exactly if names are valid, without `..`, and no entry passes through an earlier file |
| Archive.TableLength | zipfuse/src/inode.rs:134-138 | The table has two inodes plus one per distinct non-empty prefix |
| Archive.TableRefinesListing | zipfuse/src/inode.rs:165-223 | What resolving any path in the table yields, from the listing alone |
| Archive.CleanIsAccepted | zipfuse/src/inode.rs:165-223 | A listing without conflicts and `..` is accepted |
| Archive.CleanTable | zipfuse/src/inode.rs:165-223 | Without conflicts: a file with zip index i iff i is the first file entry there, a directory iff a directory entry or a proper prefix |
| Archive.ListedKind | zipfuse/src/inode.rs:155-160 | Without conflicts, a path is listed as a directory exactly if it is a directory entry or a proper prefix, and as a file exactly if a file entry is there |
| Archive.OrderIrrelevant | zipfuse/src/inode.rs:165-223 | Whether a listing has conflicts depends on its (path, is-file) pairs alone, and without conflicts the tables of two listings with the same pairs resolve every path to the same kind of thing, or both to nothing |
| Archive.SameEntry | zipfuse/src/inode.rs:165-223 | In a reordering of a listing without conflicts, a path whose file entries are alike resolves in both tables to that same entry |
| Archive.TableModes | zipfuse/src/inode.rs:195-217 | The mode of what any path resolves to, from the listing alone: the last directory entry for it decides, else the first entry at or below it |
| OpenFiles.ZipFuse.Open | zipfuse/src/main.rs:186-217 | In a run that releases no more than it opens, succeeds exactly for the files there are and leaves their content in the buffer; no other handle changes |
| OpenFiles.ZipFuse.Release | zipfuse/src/main.rs:219-242 | Every release that matches an open succeeds; the buffer keeps its content while another open is outstanding, and after the last it is gone exactly if opens never overlapped; no other handle changes |
| OpenFiles.ZipFuse.Read | zipfuse/src/main.rs:244-265 | While an open is outstanding, the right slice of the file, or a panic past its end; EBADF without a buffer |
| OpenFiles.BuffersSafe | zipfuse/src/main.rs:186-242 | In every run that releases no more than it opens, the buffer is present, right, and counted at least as often as it is open; once opens overlapped it stays for good |
| OpenFiles.ReadWhileOpen | zipfuse/src/main.rs:244-265 | While an open is outstanding, reads inside the file return the right slice of it, and reads that start past its end panic |
| OpenFiles.ReclaimedIff | zipfuse/src/main.rs:229-242 | After the last release the buffer is gone exactly if opens never overlapped |
| OpenFiles.OverlapLeaks | zipfuse/src/main.rs:234-238 | A run that leaves the buffer behind |
| Directory.Snapshot | zipfuse/src/main.rs:281-288 | The snapshot holds every entry of the directory exactly once |
| Directory.ReadDir | zipfuse/src/main.rs:312-345 | One page of the listing of an open directory; EBADF exactly if it is not open; an offset past the listing panics |
| Directory.DirIter.Next | zipfuse/src/main.rs:355-371 | The next entry, with the offset at which to resume after it |
| Directory.PageIsShortest | zipfuse/src/main.rs:329-338 | A page is the shortest run of entries whose estimated size reaches the request, or all that is left |
| Directory.EntrySizeRounds | zipfuse/src/main.rs:334-336 | The estimate is the least multiple of 8 that is large enough |
| Directory.PagingExact | zipfuse/src/main.rs:312-372 | Whatever the request sizes and however much of each reply is consumed, the consumed entries are the snapshot in order, without gap or repetition |
| Directory.PagingProgresses | zipfuse/src/main.rs:329-344 | Every non-empty request consumes at least one of the entries left |
| Directory.ListAll | zipfuse/src/main.rs:312-372 | A caller that pages to the end sees exactly the snapshot |
| VirtManager.State.AllocateCid | virtmanager/src/aidl.rs:251-256 | The least CID in [10, 2^32 - 2] never handed out before; none exactly if all were |
| VirtManager.State.Vms | virtmanager/src/aidl.rs:225-228 | The references that can be upgraded, in order |
| VirtManager.State.AddVm | virtmanager/src/aidl.rs:231-237 | Dead references are dropped, then the new one is added |
| VirtManager.State.DebugDropVm | virtmanager/src/aidl.rs:245-248 | Exactly one held reference to a VM with that CID is given up, or none exactly if there is none |
| VirtManager.HoldDropRoundTrip | virtmanager/src/aidl.rs:239-248 | Dropping by the CID of the VM just held finds a reference with that CID; it is the one just held, and the list is as before, if no other held VM has it |
| VirtManager.StepKeepsRegistry | virtmanager/src/aidl.rs:51-87 | Every step of every client, monitor and child keeps the registry invariant |
| VirtManager.RegistryOverAllRuns | virtmanager/src/aidl.rs:223-257 | In every reachable state CIDs are in [10, 2^32 - 2], strictly increasing and never reissued, the list is in order and complete, and a VM was killed exactly if no handle and no held reference is left |
| VirtManager.ListsExactlyTheLive | virtmanager/src/aidl.rs:224-228 | In every reachable state `vms()` returns exactly the instances referenced by a handle, by the manager or by their monitor, each once, in CID order |
| VirtManager.ListedWithoutReferences | virtmanager/src/aidl.rs:224-228 | A run after which a VM without handle and without held reference is listed |
| VirtManager.MonitorsOverAllRuns | virtmanager/src/crosvm.rs:98-112 | In every reachable state no callback was invoked while running, and invocations are a prefix of registrations, once each |
| VirtManager.StepContinues | virtmanager/src/crosvm.rs:98-112 | No step makes a stopped VM run again, or takes back a registration or an invocation |
| VmRuns.NotifiedExactly | virtmanager/src/aidl.rs:191-203 | If the monitor took the callback lock at step n and finished, the callbacks invoked are exactly those that clients registered before step n, in order, once per registration |
| VmRuns.FinishedHasNotified | virtmanager/src/crosvm.rs:100-107 | A monitor that finished did take the lock, and invoked exactly the callbacks registered before |
| VmRuns.MonitorFinishes | virtmanager/src/crosvm.rs:100-107 | Once the child has exited, the monitor is never stuck: by its own steps, in a bounded number, it ends, having invoked every callback registered before it took the lock |
| VmRuns.AccountedOverAllRuns | virtmanager/src/aidl.rs:158-204 | In every reachable state, the callbacks of a VM are those registered, its handles plus held references are conserved, and each stage of its monitor was reached by the step that leads there, never before the child exited |
| VmRuns.ClientsCanAct | virtmanager/src/aidl.rs:167-175 | A client with a handle is kept waiting only by a monitor that is notifying, and only to register |
| VmRuns.CidsOverAllRuns | virtmanager/src/aidl.rs:76-85 | Attempt k to start a VM gets CID 10 + k, whether or not earlier attempts succeeded, and every VM has the CID of its own attempt |
| VmRuns.DropHeldReturns | virtmanager/src/aidl.rs:245-248 | Dropping a held VM by its CID turns exactly that reference into a handle of the caller |
| VmRuns.DropHeldMisses | virtmanager/src/aidl.rs:245-248 | With a CID that no held VM has, nothing happens |
| VmRuns.StartVm | virtmanager/src/aidl.rs:51-87 | The manager's methods for a start make exactly the step of the model |
| VmRuns.HoldVmRef | virtmanager/src/aidl.rs:113-121 | The same for holding a reference |
| VmRuns.DropVmRef | virtmanager/src/aidl.rs:126-133 | The same for dropping one, and what is returned |

## Left out

- SHA-256 itself, the authenticator, and errors of the crypto library: hash function and authenticator are parameters.
- Builds without overflow checks: what the tree arithmetic computes after an overflow is not modelled; `WalkFitsIff` and `MerkleTreeHeightIs` say when there is none.
- Readers of a verified file: a reader is a function from chunk index to the returned size and the buffer it leaves, not an object that fills a buffer in place, so a buffer left half-filled by a failing read is not observed.
- Unlocked reads that race with writes: the code takes no lock for them and promises nothing.
- Interleaving.ReachableSafe: the server serves every request and offsets are unbounded; failing requests are covered for a single caller in `Editor`.
- Builder.MerkleLeaves.Resize: sizes within 4096 of 2^64, where the rounding overflows, are excluded.
- Editor.VerifiedFileEditor.WriteAt: offsets do not wrap at 2^64; the code's own arithmetic can only do so for a write that starts above 2^63, whose first chunk the client refuses. The server's file does not change in the middle of a call other than by it; `WriteChunk` has no such limit.
- Editor.VerifiedFileEditor.CalculateFsverityDigest: states nothing above 2^63 - 1 bytes, which no file of the server exceeds.
- FdServer.FdService.WriteFile: at least one byte of a non-empty buffer is written, and a write past the largest kernel file offset is an I/O error; a server that reports more than it was given is not modelled.
- FdServer.RemoteFileEditor.ReadChunk: the byte offset does not wrap at 2^64, which takes a chunk index of 2^52 or more; such an offset is reported as too large.
- Stack.ReadChunks: the reply writer takes all the bytes it is given.
- OpenFiles.ZipFuse.Read: offset plus size does not wrap at 2^64.
- OpenFiles.ZipFuse.Open: decompression errors are not modelled; the content of each file is a parameter. `opendir` and `releasedir` do the same counting, which is proved for any element type, and have no class of their own.
- Inode.InodeTable.FromZip: read errors of the archive are not modelled, and the result of `enclosed_name` is given as an optional list of components.
- Archive.OrderIrrelevant: leaves out modes, which depend on the order of entries (`TableModes`), and inode numbers.
- VirtManager.RegistryOverAllRuns: starting a VM is one step under the manager's lock, which either fails after taking a CID or succeeds; failures before that change nothing. The references that `vms()` returns are dropped within the call.
- VirtManager.NotifiedExactly: errors returned by a callback are logged by the code and not modelled.
- The requests for Merkle trees and signatures of read-only files, FUSE mounting, `stat`, `lookup`, `setattr`, argument parsing, `run_vm`, VM configuration, compos, the vm command line, payload tools, tests and build files: plumbing with one branch per fact.
