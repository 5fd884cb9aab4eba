# HSFS in Dafny

HSFS is an NFSv3 client (RFC 1813) that runs as a FUSE daemon. Its event loop is
single-threaded, so the model is sequential: requests of the kernel come one after
the other, and the server, the allocator and the kernel answer as they like.

## What is modelled

`Basics` holds words, bytes, error numbers and the option type.

**Inode cache** (`Hash`, `HashTable`, `Attributes`, `CacheSpec`, `FileHandle`, `InodeCache`).
`CacheSpec` is the cache as plain maps. `InodeCache.Super` is the cache as the code has it: inodes in
memory, linked into two tables of `hlist` chains, with the wrap-around number allocator. Memory is a map from
addresses to records and the pointer fields of list nodes are maps from addresses, so aliasing is
equality of addresses and a node is named by the object it is embedded in. An inode holds its handle as the fixed
buffer of `FileHandle`, copied and compared as the code does. `Super.Valid()` says that both tables hold
exactly the inodes of the plain maps, each in the right bucket; every operation keeps it and does to
the tables what the function of the same name does to the maps.

**Lookup counts and answers** (`FuseSpec`, `FuseRuns`, `Answers`, `Fuse`). The requests that hand out or take back references
(lookup, the create-like requests, readdirplus, forget, link) as steps on the plain maps; what each is answered with and
does, told by the fields of the server's reply; theorems over every run of them; and the same requests on the hash tables, proved to follow those runs (`Fuse.Serve`).

**Directory listing** (`Packing`, `Readdir`, `PlusListing`). Packing a reply, and whole listings by READDIR and by
READDIRPLUS against a server that chooses its batches.

**Reading and writing** (`Rpc`, `ReadWrite`). The chunk loops over an RPC that is retried, against a
server that answers short, fails, or stores a write whose answer is lost.

**Mount** (`Mount`, `Options`). Power-of-two rounding, FSINFO, statfs; the two passes over the option string.

**ACLs** (`Acl`). The extended-attribute codec down to its bytes.

## What is proved, in short

- Over every sequence of requests the two hash tables stand for the plain-map cache
  (`Fuse.Serve`, `InodeCache.WellPlaced`); no inode is lost or changes its handle or its file type (`FuseRuns.Run`); no
  linked inode is freed, since `i_count` never rises above zero.
- Every request is answered, in every case, with the entry of the right inode or the right error, and caches just the
  attributes the server sent (`Answers.LookupAnswers`, `Answers.CreateAnswers`, `Answers.LinkAnswers`,
  `Answers.ForgetAnswers`, `Answers.PlusAnswers`, `CacheSpec.FhGetAnswers`).
- The stored lookup count is, modulo 2^64, references handed out minus references taken back
  (`FuseRuns.Accounting`), it differs from the kernel's own count exactly by LINK replies and by "." and ".."
  (`FuseRuns.KernelView`), and an assertion fails exactly under a condition on who holds what (`FuseRuns.CrashIff`).
- A listing shows every entry once and in order exactly if each entry is smaller than the buffer
  (`Readdir.ListDirectory`, `Readdir.CompleteIff`); one by READDIRPLUS also raises each inode's count by the entries
  shown for it, on the hash tables themselves (`PlusListing.ListDirectoryPlus`).
- Writes leave a prefix of the buffer laid over the file whatever is retried, lost or cut short, as far as any try
  reached; it is the acknowledged prefix exactly if no try that was made stored anything beyond it (`ReadWrite.Write`). A
  read returns the file's bytes, short only at the end of the file (`ReadWrite.Read`).
- The option string survives its two passes exactly if the first and the last option passed on are not empty; the pass-through
  buffer is never overrun or truncated, for any input.
- Parsing a printed ACL gives it back exactly for the non-empty, valid, normal ones.

## Where the code does less than one would expect

- `hsx_fuse_link` replies with an entry that it does not count. `FuseRuns.LinkCounterexample` is a run that creates a
  regular file, links it once and forgets both references, which trips the assertion in forget; `FuseRuns.ForgetAllCrashesIff` says exactly when a kernel that gives
  back all it holds does so.
- `hsfs_block_bits` scans with the `int` expression `1 << 31`. Sizes from 2^31 on become 2^64 - 2^31, unless they are
  powers of two and the bits are not asked for (`Mount.BlockBits`). No caller passes such a size except for the write
  multiple, where the 32-bit field cuts the result back to the right value (`Mount.WriteMultiple`).
- A server that allows between 512 and 1023 bytes gets requests of 4096: the negotiated size is within
  the server's maximum exactly if that is at least 1024 (`Mount.IoSize`).
- `rsize` and `wsize` are parsed as options (nfs3/hsi_nfs3_mount.c:314-317) and then replaced by the size of the
  transport (`Mount.MountData.Validate`).
- Statfs block counts are ceilings exactly up to 2^64 minus one block (`Mount.BlocksCeiling`); the same holds of the block
  count of an inode (`Attributes.BlocksUsedIsCeiling`).
- A query for the size of an ACL attribute is answered with 34 (ERANGE), not the size, where `calloc`
  returns a buffer for zero bytes (`Acl.GetXattr`).
- After an RPC failure the file may hold more than the acknowledged prefix, because a lost answer may belong to a
  write that was carried out. `ReadWrite.LostWrite` is such a write; `ReadWrite.Write` says exactly when the file holds
  just the acknowledged prefix.
- Create and mkdir in an unknown directory, and a link of or into an unknown inode, are never answered
  (outcome `NoReply`).

## Model

| member | source | states |
|---|---|---|
| `Hash.Hash64` | include/hsfs/hash.h:22 | below 2^bits |
| `Hash.HashTopBits` | include/hsfs/hash.h:22 | it is what a shift right leaves of the key times the golden ratio prime modulo 2^64 |
| `Hash.ShiftAddHash` | include/hsfs/hash.h:34-55 | the shift/add chain equals that product's top bits, for every 64-bit key and every number of bits |
| `Hash.ShiftAddChain` | include/hsfs/hash.h:36-51 | six shifts with their additions and subtractions multiply by the prime modulo 2^64 |
| `Hash.HashMin` | include/hsfs/hashtable.h:36-41 | the bucket of a key: the top ten bits of its product with the prime, below 1024 |
| `HashTable.OnePlace` | include/hsfs/list.h:377-387 | back pointers put a node at one position of one chain |
| `HashTable.Distinct` | include/hsfs/list.h:377-387 | a chain with right back pointers repeats no node |
| `HashTable.ChainUnique` | include/hsfs/list.h:477-481 | the pointers determine the chain a walk sees |
| `HashTable.Placed` | include/hsfs/hashtable.h:69-70 | in a valid table a node is in the bucket its key hashes to, once, and in no other |
| `HashTable.Table.constructor` | include/hsfs/hashtable.h:43-61 | every bucket empty: a valid table without nodes |
| `HashTable.Table.AddHead` | include/hsfs/list.h:425-434 | the chain becomes the node followed by the old chain, back pointers right; nothing outside it changes |
| `HashTable.Table.Unlink` | include/hsfs/list.h:400-407 | from the node's own pointers alone, just that node leaves the chain |
| `HashTable.Table.DelInit` | include/hsfs/list.h:417-423 | a linked node leaves its chain and is marked as unlinked; for an unlinked node nothing happens |
| `HashTable.Table.AddBefore` | include/hsfs/list.h:438-445 | the new node is inserted right before the given one |
| `HashTable.Table.AddAfter` | include/hsfs/list.h:447-456 | the new node is inserted right after the given one |
| `HashTable.Table.Add` | include/hsfs/hashtable.h:69-70 | the table holds one more node, under its key; all chains stay right |
| `HashTable.Table.Del` | include/hsfs/hashtable.h:116-119 | the table holds the other nodes, under their keys |
| `HashTable.Table.Possible` | include/hsfs/hashtable.h:181-182 | the walk starts on a chain that has every node with the key |
| `Attributes.SizeToOff` | include/hsfs/hsi_nfs.h:206-211 | the size below LLONG_MAX, LLONG_MAX - 1 from there on |
| `Attributes.BlocksUsedIsCeiling` | include/hsfs/hsi_nfs.h:216-220 | the block count is the ceiling of the bytes if and only if the sum does not wrap |
| `Attributes.FromReply` | nfs_common/hsi_nfs_inode.c:331-382 | every attribute is the reply's, field by field, the size clamped and the bytes in blocks |
| `Attributes.RefreshMeans` | nfs_common/hsi_nfs_inode.c:988-1131 | every field from the reply if fileid and type agree, else -116 and no change; nothing without attributes |
| `Attributes.Refresh` | nfs_common/hsi_nfs_inode.c:988-1131 | all or nothing: every attribute from the reply, or -ESTALE and no change, the latter if and only if the reply's fileid or file type is another; the file type never changes |
| `CacheSpec.FreshId` | lib/hsfs_inode.c:206-214 | the allocator stops, at a number that is not 0 and not in use, and at 1 only as the first number ever |
| `CacheSpec.FreshIdIsFirst` | lib/hsfs_inode.c:209-213 | every number the counter passes on its way is in use |
| `CacheSpec.FreshIdSpan` | lib/hsfs_inode.c:209-213 | all numbers between the counter and the new number are in use, around the end if need be |
| `CacheSpec.FewTakenHasFree` | lib/hsfs_inode.c:209-213 | a number is free as long as fewer than 2^64 - 2 are in use |
| `CacheSpec.FhGetAnswers` | nfs_common/hsi_nfs_inode.c:294-403 | ENOENT, ENOMEM, or the inode with this key: the cached one, refreshed field by field if its type agrees, or a new one with all attributes of the reply; every other record unchanged |
| `CacheSpec.FhGetKeepsInv` | nfs_common/hsi_nfs_inode.c:294-403 | getting an inode keeps numbers and keys one to one and every inode live |
| `FileHandle.CopyFh3` | include/hsfs/hsi_nfs.h:52-56 | the handle's counted bytes are the source |
| `FileHandle.CopyFh` | include/hsfs/hsi_nfs.h:45-49 | the handle's counted bytes are the other's, which keeps its own |
| `FileHandle.CompareFh` | include/hsfs/hsi_nfs.h:40-43 | zero if and only if the counted bytes are equal |
| `FileHandle.SameHandle` | include/hsfs/hsi_nfs.h:36-56 | copied handles compare as equal if and only if their sources are, whatever the buffers held |
| `InodeCache.FindActor` | nfs_common/hsi_nfs_inode.c:228-245 | finds an inode if and only if fileid and counted handle bytes agree and it is neither bad nor stale |
| `InodeCache.Super.constructor` | lib/hsfs_inode.c:66-71 | two empty tables that stand for the empty cache |
| `InodeCache.Super.FindById` | lib/hsfs_inode.c:94-111 | the walk finds the inode with the number if there is one, and nothing otherwise |
| `InodeCache.Super.FindByFh` | lib/hsfs_inode.c:113-143 | the walk with the handle test finds the inode with fileid and handle, and nothing otherwise |
| `InodeCache.Super.TakeId` | lib/hsfs_inode.c:209-213 | the loop over the id table ends at the number the plain maps predict |
| `InodeCache.Super.AddToLists` | lib/hsfs_inode.c:206-218 | the inode is in both tables under a new number and the plain maps gain just this inode |
| `InodeCache.Super.NewInode` | nfs_common/hsi_nfs_inode.c:247-285 | a new inode holds its key and is in no list |
| `InodeCache.Super.GetNew` | lib/hsfs_inode.c:221-255 | the new inode is linked in both tables, numbered and marked as new |
| `InodeCache.Super.Fill` | nfs_common/hsi_nfs_inode.c:322-392 | a new inode gets all attributes of the reply and is unlocked |
| `InodeCache.Super.Update` | nfs_common/hsi_nfs_inode.c:898-917 | the code's field updates and its status are those of the all-or-nothing refresh |
| `InodeCache.Super.FhGet` | nfs_common/hsi_nfs_inode.c:294-403 | result and new cache are those of the plain maps, tables stay valid, other inodes stay at their addresses |
| `InodeCache.Super.Ilookup` | lib/hsfs_inode.c:146-156 | finds the inode with the number if and only if the plain maps list it |
| `InodeCache.Super.HeldRec` | lib/hsfs_inode.c:146-156 | a linked inode is live, complete, not stale, and what the plain maps say |
| `InodeCache.Super.Modify` | include/hsfs.h:101-118 | writing fields an inode is not found by changes its record and nothing else |
| `InodeCache.Super.RefreshHeld` | nfs_common/hsi_nfs_inode.c:898-917 | the code's field updates on a linked inode change its record as the refresh says, and nothing else |
| `InodeCache.WellPlaced` | lib/hsfs_inode.c:94-143 | in every valid state both tables hold the same inodes, each once and in the bucket its key hashes to, none freed, agreeing with the plain maps |
| `FuseSpec.GetFacts` | nfs_common/hsi_nfs_inode.c:294-403 | getting an inode loses none, keeps every key, type and lookup count, and returns one with the key asked for |
| `FuseSpec.GetAll` | nfs3/hsi_nfs3_readdir.c:207-238 | an inode for each entry up to the first failure, with no lookup count changed |
| `FuseSpec.GetAllStops` | nfs3/hsi_nfs3_readdir.c:212-234 | nothing after the first failing entry is looked at |
| `FuseRuns.LookupEffect` | fuse/hsx_fuse_lookup.c:16-36 | an entry reply raises that inode's count by one and no other |
| `FuseRuns.CreateEffect` | fuse/hsx_fuse_create.c:27-67 | an entry reply hands out the one reference the exchange stored; no other reply moves a count |
| `FuseRuns.PlusEffect` | fuse/hsx_fuse_readdir.c:70-109 | counts rise by exactly the entries inside the reply |
| `FuseRuns.ForgetEffect` | fuse/hsx_fuse_forget.c:33-39 | the count falls by what was forgotten and the inode stays in the cache |
| `FuseRuns.LinkEffect` | fuse/hsx_fuse_link.c:16-46 | a reply that names the inode and moves no count |
| `FuseRuns.StepEffect` | include/hsx_fuse.h:379-391 | every request keeps the cache consistent, loses no inode, and moves each count by handed out minus taken back, modulo 2^64 |
| `FuseRuns.Run` | nfs_common/hsi_nfs_inode.c:247-259 | over every run: the cache is consistent, no inode is lost, fileid, handle and file type never change |
| `FuseRuns.Mounted` | nfs3/hsi_nfs3_mount.c:591-599 | the root is the only inode, has number 1 and one reference |
| `FuseRuns.Accounting` | include/hsx_fuse.h:379-391 | in every run the stored count equals references handed out minus taken back, modulo 2^64 |
| `FuseRuns.ExactCounts` | include/hsx_fuse.h:379-391 | while they fit 64 bits the two are equal |
| `FuseRuns.KernelView` | patches/rdirplus-kernel/0001-fuse-implement-NFS-like-readdirplus-support.patch:96-105 | kernel count plus "." and ".." entries equals daemon count plus LINK replies, over every trace |
| `FuseRuns.CrashIff` | fuse/hsx_fuse_forget.c:33-36 | a request trips an assertion if and only if it forgets more than is owed or an unknown inode, creates an object that is owed, or lists an unknown directory |
| `FuseRuns.CreateCrash` | fuse/hsx_fuse_create.c:63-64 | the create assertion fails if and only if the reply names a cached inode whose count is not zero and no SETATTR of an exclusive create failed before |
| `FuseRuns.BehavedNeverCrashes` | fuse/hsx_fuse_forget.c:33-39 | without LINK, with creates of unreferenced objects and a kernel that forgets only what it holds, no assertion fails, kernel counts are never negative and never above the daemon's, and the stored counts are references handed out minus forgotten while those fit a word |
| `FuseRuns.ForgetAllCrashesIff` | fuse/hsx_fuse_link.c:38-42 | a kernel that gives back all it holds trips the assertion if and only if it got more LINK replies than "." and ".." entries |
| `FuseRuns.LinkOnce` | fuse/hsx_fuse_link.c:38-42 | a LINK that succeeds is answered with an entry and leaves the count as it was |
| `FuseRuns.LinkThenForget` | fuse/hsx_fuse_link.c:38-42 | after any run, if the kernel holds all the daemon counts, a LINK into any directory and a forget of all it then holds trip the assertion |
| `FuseRuns.CreateNew` | fuse/hsx_fuse_create.c:54-67 | creating an object unknown to the cache gives it the next number and one reference |
| `FuseRuns.LinkCounterexample` | fuse/hsx_fuse_link.c:38-42 | mount, create a regular file, link it into the root: the kernel holds two references, and forgetting them trips the assertion |
| `FuseRuns.HandleIdentity` | nfs_common/hsi_nfs_inode.c:228-245 | two lookups with any run between them give the same number if and only if fileid and handle bytes agree, forgotten or not |
| `Answers.LookupAnswers` | fuse/hsx_fuse_lookup.c:16-40 | the error of each failing case, or the entry of the inode with the reply's fileid and handle, refreshed and with one reference more |
| `Answers.CreateAnswers` | fuse/hsx_fuse_create.c:27-67 | for every parent and kind: no answer or ENOENT for an unknown one, the owner taken, then the error of each failing case or the inode of the object with count 1, after the SETATTR of an exclusive create |
| `Answers.ForgetAnswers` | fuse/hsx_fuse_forget.c:21-43 | the count lower by the number given, `i_count` by one when it reaches zero, nothing else changed |
| `Answers.LinkAnswers` | nfs3/hsi_nfs3_link.c:157-186 | no answer, the error of each failing case, or the inode refreshed and named with its count unchanged |
| `Answers.EntriesAnswer` | nfs3/hsi_nfs3_readdir.c:207-238 | one entry more of a READDIRPLUS reply: its error, or the inode of its handle, refreshed and without a reference |
| `Answers.PutAllMeans` | nfs3/hsi_nfs3_readdir.c:73-88 | after a failure each `i_count` is lower by the times the inode was obtained |
| `Answers.AddRefsMeans` | fuse/hsx_fuse_readdir.c:96 | references change lookup counts only |
| `Answers.PlusAnswers` | nfs3/hsi_nfs3_readdir.c:160-251 | the error of each failing case, or the directory refreshed and the packed entries shown with name, inode and cookie |
| `Fuse.Fhget` | nfs_common/hsi_nfs_inode.c:294-403 | from the handle bytes of a reply: result and cache of the plain maps, with whatever address the allocator returns |
| `Fuse.LookupOp` | fuse/hsx_fuse_lookup.c:16-36 | reply and cache as in the run on plain maps |
| `Fuse.CreateOp` | fuse/hsx_fuse_create.c:27-67 | for create, mkdir, mknod and symlink: reply or none, owner change of the parent and cache as in the run on plain maps |
| `Fuse.HandOut` | nfs3/hsi_nfs3_create.c:93-99 | the SETATTR of an exclusive create, its error or its attributes, before the exchange and its assertion |
| `Fuse.RefInc` | include/hsx_fuse.h:383-386 | the count of this inode is one higher, wrapping at 64 bits |
| `Fuse.RefXchg` | include/hsx_fuse.h:379-382 | returns the old count and stores the new one |
| `Fuse.RefDec` | include/hsx_fuse.h:387-391 | lowers the count; an inode at zero is put |
| `Fuse.Iput` | lib/hsfs_inode.c:289-316 | lowers `i_count`, frees at zero if links remain; the inode stays live because the count never reaches zero |
| `Fuse.ForgetOp` | fuse/hsx_fuse_forget.c:21-43 | reply, cache and failed assertions as in the run on plain maps |
| `Fuse.LinkOp` | fuse/hsx_fuse_link.c:16-46 | reply, refreshed inode and cache as in the run on plain maps |
| `Fuse.GetEntries` | nfs3/hsi_nfs3_readdir.c:207-238 | the loop holds one inode for each entry obtained, and stops at the first failure |
| `Fuse.PutEntries` | nfs3/hsi_nfs3_readdir.c:73-88 | after a failure every inode obtained is put once |
| `Fuse.PackPlus` | fuse/hsx_fuse_readdir.c:83-99 | one reference for each entry that gets into the reply, and for no other |
| `Fuse.RefreshDir` | nfs_common/hsi_nfs_inode.c:898-917 | an inode is refreshed as a whole or not at all |
| `Fuse.PlusOp` | nfs3/hsi_nfs3_readdir.c:160-251 | reply and cache as in the run on plain maps |
| `Fuse.Mount` | fuse/hsx_fuse_init.c:76-77 | the tables after mount stand for the root with number 1 and one reference |
| `Fuse.Serve` | fuse/hsfs_main.c:464 | for every sequence of requests the tables go through the run of the plain maps, with the same replies |
| `Packing.CopyName` | nfs3/hsi_nfs3_readdir.c:47-55 | the first 255 characters of the name, or all of them |
| `Packing.FitsIsGreedy` | fuse/hsx_fuse_readdir.c:83-99 | the packed entries take less than the buffer and one more would not |
| `Packing.FitsContinues` | fuse/hsx_fuse_readdir.c:145-155 | packing never passes an entry that is too large, and packs nothing only there or at the end |
| `Readdir.BuildList` | nfs3/hsi_nfs3_readdir.c:134-144 | the linked list has the entries in order, each with its name, fileid and cookie |
| `Readdir.Pack` | fuse/hsx_fuse_readdir.c:145-155 | the reply is the longest run of entries from the front that leaves room to spare, each with its fileid, its cookie and the first 255 characters of its name |
| `Readdir.ReaddirOp` | nfs3/hsi_nfs3_readdir.c:90-158 | packed answer with fileid, cookie and name of each entry, verifier kept and directory refreshed; or bad cookie or ESTALE and no change |
| `Readdir.ListTurn` | fuse/hsx_fuse_readdir.c:116-168 | one request of a listing shows the next entries, none only at the end, and its cookie resumes after them |
| `Readdir.AfterFinds` | nfs3/hsi_nfs3_readdir.c:106-107 | the cookie of an entry resumes right after it |
| `Readdir.ListDirectory` | fuse/hsx_fuse_readdir.c:145-158 | whatever the batches, the listing shows each entry once and in order, with its fileid, its cookie and the first 255 characters of its name, up to the first that is not smaller than the buffer; it is cut short if and only if a reply has attributes of another object |
| `Readdir.CompleteIff` | fuse/hsx_fuse_readdir.c:150-151 | it is the whole directory if and only if every entry is smaller than the buffer |
| `PlusListing.GetAllKeys` | nfs3/hsi_nfs3_readdir.c:207-238 | each inode obtained is the one of its entry's handle and fileid |
| `PlusListing.PlusReplyShows` | nfs3/hsi_nfs3_readdir.c:160-251 | an error, or the packed entries with name, cookie and inode of their object; never an error when attributes, entries and buffer are in order |
| `PlusListing.ListedMore` | fuse/hsx_fuse_readdir.c:70-109 | one request of a listing shows the next entries, none only at the end, with counts raised by the entries shown |
| `PlusListing.PlusTurn` | fuse/hsx_fuse_readdir.c:70-109 | the same on the hash tables |
| `PlusListing.ListDirectoryPlus` | fuse/hsx_fuse_readdir.c:83-102 | whatever the batches, each entry is shown once, in order and with the inode of its object, every count is raised by the entries shown, and the listing ends early only on an error, which takes an unusable reply |
| `Rpc.ClntCall` | nfs3/hsi_nfs3_mount.c:852-884 | at most six tries; zero if and only if the last was answered; another try exactly after EAGAIN, or after ENOTCONN or ECONNRESET with a connection made anew |
| `Rpc.FailureErrno` | nfs3/hsi_nfs3_unlink.c:84-90 | the recorded error number, EIO for none |
| `Rpc.StatToErrno` | nfs3/hsi_nfs3_unlink.c:32-82 | zero for NFS3_OK and nothing else; the table's number, or EIO for what it lacks |
| `ReadWrite.OverlayBytes` | fuse/hsx_fuse_write.c:34-52 | a write byte by byte: the data in its range, zeros in a hole, the old file elsewhere |
| `ReadWrite.OverlayExtends` | fuse/hsx_fuse_write.c:34-52 | a chunk written over or after a written prefix leaves one longer prefix |
| `ReadWrite.RetriesIdempotent` | nfs3/hsi_nfs3_mount.c:852-884 | however often a chunk is sent and however much of it each try stores, the file holds one prefix of the buffer |
| `ReadWrite.WriteChunk` | nfs3/hsi_nfs3_write.c:23-42 | zero if and only if the last try was answered with NFS3_OK, and then the count it stored; otherwise nothing acknowledged and the error number of that try: the recorded one, or the one the table pairs with its status |
| `ReadWrite.SendChunk` | fuse/hsx_fuse_write.c:34-52 | the file holds the buffer as far as any try of this chunk reached, or as far as before |
| `ReadWrite.WriteTurn` | fuse/hsx_fuse_write.c:34-52 | one turn of the loop, its request logged whether it succeeds or fails |
| `ReadWrite.FurthestBound` | nfs3/hsi_nfs3_mount.c:863-880 | the furthest reach is within a bound if and only if every try that was made is |
| `ReadWrite.QuietWithin` | nfs3/hsi_nfs3_write.c:23-42 | a try that stores nothing unless it is acknowledged stores nothing beyond what is acknowledged |
| `ReadWrite.Write` | fuse/hsx_fuse_write.c:34-52 | the file is the old one overlaid with the buffer as far as any try reached, the whole of it on success; that is the acknowledged prefix if and only if no try that was made stored anything beyond it; all requests, a failing last one included, are contiguous and at most wsize; an error means that this last request ended lost or with another status, and is the number recorded or paired with that status; the loop can go on for ever only on an answer that acknowledges nothing |
| `ReadWrite.LostWrite` | nfs3/hsi_nfs3_mount.c:863-880 | a write returns EAGAIN with nothing acknowledged, and its byte is in the file |
| `ReadWrite.WindowBytes` | fuse/hsx_fuse_read.c:30-50 | the bytes due to a read: the file's, no more than asked, fewer only at its end |
| `ReadWrite.WindowJoins` | fuse/hsx_fuse_read.c:30-45 | full chunks that follow each other are one read |
| `ReadWrite.ReadChunk` | nfs3/hsi_nfs3_read.c:23-45 | copies the server's bytes to their place in the buffer and leaves what is before them; count and end mark as answered |
| `ReadWrite.ReadTurn` | fuse/hsx_fuse_read.c:30-47 | one turn of the loop, its request logged whether it succeeds or fails |
| `ReadWrite.ReadMore` | fuse/hsx_fuse_read.c:30-47 | one turn of the loop keeps the buffer filled with the file's bytes |
| `ReadWrite.Read` | fuse/hsx_fuse_read.c:30-50 | the reply is the file's bytes, short only at its end; all requests, a failing last one included, are contiguous and at most rsize; an error means that this last request ended lost or with another status, and is the number recorded or paired with that status; the loop can go on for ever only on an answer with neither a byte nor the end mark |
| `Mount.BitAndPred` | nfs3/hsi_nfs3_mount.c:476 | `n & (n - 1)` is zero for the powers of two alone |
| `Mount.IntBitTest` | nfs3/hsi_nfs3_mount.c:479 | what the mask tests at each position of the scan, with bit 31 sign-extended |
| `Mount.Scan` | nfs3/hsi_nfs3_mount.c:479-480 | the exponent of the largest power of two not above the size, 31 for sizes from 2^31 on |
| `Mount.BlockBits` | nfs3/hsi_nfs3_mount.c:473-487 | rounds down to a power of two if and only if the size is below 2^31 and not zero, or is a power of two already and the bits are not asked for; the result in every other case |
| `Mount.BlockSize` | nfs3/hsi_nfs3_mount.c:492-500 | for every size the largest power of two not above the clamped size, within 1024 and 2^20, with its exponent |
| `Mount.CacheBounds` | nfs3/hsi_nfs3_mount.c:514-530 | bounds in order and not zero; a pair given in order is kept, a missing bound is the default if that is in order, and otherwise both are |
| `Mount.IoSize` | nfs3/hsi_nfs3_fsinfo.c:10-24 | the size set, or else the preferred one rounded, brought down to the server's maximum rounded and to 2^20; within 1024 and 2^20, at most the server's maximum if and only if that is at least 1024; an acceptable size is kept |
| `Mount.MountData.Validate` | nfs3/hsi_nfs3_mount.c:502-561 | defaults for what is missing, block size and its bits, sizes of the transport |
| `Mount.MountData.FromFsInfo` | nfs3/hsi_nfs3_fsinfo.c:7-43 | both I/O sizes, the directory size as the least of the preferred one rounded, the read size and eight pages, the write multiple |
| `Mount.WriteMultiple` | nfs3/hsi_nfs3_fsinfo.c:38 | the largest power of two not above any 32-bit value, zero for zero |
| `Mount.MountData.Negotiate` | nfs3/hsi_nfs3_mount.c:670 | after mount, whatever options and server: I/O sizes in range and positive, directory size bounded, block size 2^bits |
| `Mount.BlocksCeiling` | fuse/hsx_fuse_statfs.c:47-56 | the block count is the exact ceiling if and only if the bytes are at most 2^64 minus a block |
| `Mount.CeilingMonotone` | fuse/hsx_fuse_statfs.c:54-56 | more bytes never show as fewer blocks |
| `Mount.Super2Statvfs` | fuse/hsx_fuse_statfs.c:38-71 | fails if and only if bits, block size or name length is zero; exact ceilings; available, free and total blocks in order; file counts, flags and name length unchanged |
| `Options.CutMeans` | fuse/hsfs_main.c:332-338 | the cut is the first comma with an even number of double quotes before it |
| `Options.CleanMeans` | fuse/hsfs_main.c:332-338 | an item has an even number of double quotes, and an odd number before each of its commas |
| `Options.OpenItems` | fuse/hsfs_main.c:330-343 | with quotes left open, all is handed on up to the last comma outside quotes, and the rest is lost |
| `Options.JoinItems` | fuse/hsfs_main.c:330-343 | with quotes closed, the items joined by commas are the string, but for one last comma |
| `Options.ItemsClean` | fuse/hsfs_main.c:332-338 | no item has a comma outside quotes or an open quote |
| `Options.ItemsJoin` | nfs3/hsi_nfs3_mount.c:292-308 | splitting a joined list of such items gives the list back, but for an empty last item |
| `Options.Split` | fuse/hsfs_main.c:327-345 | the in-place loop hands on exactly the items |
| `Options.ParseOpt` | fuse/hsfs_main.c:283-310 | an option of the table or the FUSE library is not passed on; any other is appended whole |
| `Options.PassedFilters` | fuse/hsfs_main.c:288-302 | the options passed on are those neither in the table nor the library's, in their order |
| `Options.ItemsWeight` | fuse/hsfs_main.c:319-322 | the items with their separators are no longer than the string with its terminator |
| `Options.ParseOpts` | fuse/hsfs_main.c:313-346 | for every string the pass-through buffer gets all that is passed on, joined, within its size |
| `Options.StageTwo` | nfs3/hsi_nfs3_mount.c:292-308 | the second split returns the list if and only if it is empty or its first and last options are not; in any case all but leading empty options and one last empty option |
| `Options.Resplit` | nfs3/hsi_nfs3_mount.c:292-311 | stage two takes the items up to the first of 128 characters or more, and refuses the string if and only if there is one |
| `Options.Stages` | nfs3/hsi_nfs3_mount.c:292-311 | the same for both loops run one after the other on any option string |
| `Acl.EntryRoundTrip` | include/acl.h:90-94 | eight bytes and one entry stand for each other |
| `Acl.EncodeRaw` | nfs3/hsi_acl3.c:42-47 | bytes of a whole attribute and its entries stand for each other |
| `Acl.ParsePrinted` | nfs3/hsi_acl3.c:27-116 | parsing a printed ACL: the normalised ACL, or nothing if empty or with a bad tag; the ACL itself if and only if it is not empty, valid and normal |
| `Acl.PrintParsed` | nfs3/hsi_acl3.c:27-116 | printing a parsed attribute changes nothing but ids of object entries, and is the identity if and only if those are undefined |
| `Acl.AcceptedSize` | nfs3/hsi_acl3.c:68-85 | only sizes 4 + 8n with n > 0 are accepted |
| `Acl.EncodeMeans` | include/acl.h:90-99 | version 2 in four bytes, then tag, permissions and id of each entry in two, two and four bytes, low byte first |
| `Acl.DecodeMeans` | nfs3/hsi_acl3.c:56-116 | accepted if and only if version, size and every tag are right; each entry read from its bytes, with an id only for a named user or group |
| `Acl.ToXattr` | nfs3/hsi_acl3.c:27-49 | size, ERANGE with the buffer untouched, or the attribute byte by byte; ERANGE is never a real size |
| `Acl.FromXattr` | nfs3/hsi_acl3.c:56-116 | the ACL the bytes stand for, entry by entry, or nothing |
| `Acl.GetXattr` | fuse/hsx_fuse_getxattr.c:46-79 | the encoding, ERANGE or ENOMEM; a size query gets the size if and only if `calloc` returns no buffer, and 34 otherwise |
| `Acl.FromMode` | nfs3/hsi_acl3.c:119-137 | user, group and other entries in this order, without ids, holding three mode bits each |

## Left out

- CacheSpec.FhGetKeepsInv: requires a free number when an inode has to be made; without one the allocator never returns. Runs are those that make at most 2^64 - 3 inodes in all (`FuseSpec.Room`).
- Fuse.LinkOp: when the LINK reply lacks attributes the GETATTR that follows is taken as part of the reply.
- ReadWrite.Write: offsets are unbounded, the counts of a server never exceed what was sent, and the stability flag is not modelled since no COMMIT is ever sent.
- ReadWrite.Read: the server's data length and count agree, as section 3.3.6 of RFC 1813 demands; offsets are unbounded.
- Mount.MountData.FromFsInfo: fields of the reply that are only copied are left out; `Mount.MountData.Validate` leaves out addresses, program numbers and the retry default.
- Mount.Super2Statvfs: requires at most 30 block bits, beyond which the shift is undefined in C; mount sets 10 to 20.
- Options.ParseOpt: mount flags and the arguments added for the FUSE library are not modelled; the option table and the library's own options are parameters.
- Options.Split: the items are collected and then handed on in order, where the code hands each on as it ends; what stage two does with an option it takes is not modelled.
- Acl.ToXattr: the attribute's size fits an `int`; the protocol allows 1024 entries.
- Mount.TransportSize: `UDPMSGSIZE` and `RPC_MAXDATASIZE` are those of the RPC library, 8800 and 9000; its headers are not part of this model.
- PlusListing.ListDirectoryPlus: the object behind a directory entry keeps its handle and fileid during the listing.
- `i_count` is a mathematical integer; the destroy path it would open is shown to be unreachable.
- Failures of `hsi_nfs_fhget` are an explicit result instead of an encoded pointer.
- The attribute mask of a reply is one flag: attributes are there or not.
- FileHandle.CopyFh3: handles are values of inode records and locals, so copying returns the new value instead of writing through a pointer; a handle of the protocol has at most 64 bytes.
- Allocation failures while the contexts of a directory reply are built.
- A server that asks for a zero verifier together with a zero cookie: a listing starts with cookie zero and whatever verifier the directory's inode holds.
- Attribute, access, rename, unlink, readlink and setattr requests, xattr requests other than the codec, default-ACL merging: no reference or shared state, only easy members.
- RPC transport, XDR, sockets, mtab, logging, daemonising, the circular `list_head` functions, NFSv4 and code that is not compiled.
