# A verified model of the cryptodev-linux driver

cryptodev-linux gives programs access to the kernel's ciphers and hashes through `/dev/crypto`. The
kernel's algorithms are foreign to it; its own logic is in how requests are cut, chained, copied or
pinned, locked and queued. This project models that logic in Dafny and proves what it promises.

- `Bytes`, `BlockModes`, `HashCore` hold the ground: user memory is a byte sequence indexed by address
  (address 0 is the null pointer, an address past the end is unmapped); a cipher is an arbitrary block
  permutation with its inverse, used in ECB, CBC or CTR mode (sections 6.1, 6.2 and 6.5 of NIST
  SP 800-38A) with the chaining value as explicit state; a digest is an arbitrary function of the bytes
  absorbed since the last reset. Splitting and inversion are proved, not assumed, and so is what each
  mode computes block by block, the counter of CTR as a number and the exclusive or bit by bit.
- `RunEngine`, `RunSession`, `RunTheorems`, `RequestTheorems`, `HashLog` are main.c. `RunEngine` says what a request does,
  as functions on values. `RunSession` is the code itself, a class that updates its IV, its hash state
  and user memory in place, proved against those functions. The others prove what the functions
  promise, over single calls, streams of calls and whole histories of many sessions; `RequestTheorems`
  does so flag by flag, in terms of the request's fields and the cipher alone.
- `Tls`, `AuthRequest`, `AuthSession`, `AuthEffects`, `AuthTheorems` are authenc.c in the same
  arrangement: TLS records (section 6.2.3.2 of RFC 5246) and SRTP packets (section 3.3 of RFC 3711).
  `AuthEffects` says field by field what such a request does, `AuthTheorems` what two of them undo.
- `Scatterlist` and `ZeroCopy` are util.c and zc.c. A scatterlist means the sequence of user addresses
  it covers, and every function is proved against that meaning. `PinnedRun` and `PinnedAuth` put them
  under main.c and authenc.c: pinning, processing through the lists, and giving the pages back.
- `AsyncQueue`, `SessionTable`, `Deadlock`, `FileRelease`, `Completion` are the concurrent parts of ioctl.c and
  cryptlib.c: state machines whose steps are critical sections, acquisitions and releases of mutexes, or
  callbacks. Their theorems hold in every reachable state of every interleaving of any number of threads.
  `AsyncReuse` joins the job queue with main.c.

What the environment decides is a parameter: how many pages can be pinned, whether an allocation
succeeds, which number a new session draws, what the backend answers and when it calls back, and the
bytes that a digest shorter than its 64-byte buffer leaves there (`stale`). A program's own memory is a
parameter too: between two calls it may hold anything.

## What the proofs turned up

Where the code does not do what its documentation or its shape suggests, the model follows the code and
the theorem states exactly when the expected property holds.

- The hash is reset only if the flags are entirely zero or RESET is set (main.c:202). Asking for NO_ZC
  alone therefore suppresses the reset. `NoZcFlagInvisible` says exactly when a program cannot tell the
  difference, whatever its hash computes; `NoZcFlagVisible` gives a hash and two delivered digests.
- A request refused for its length has by then reset the hash, if it asked for that (main.c:202-218):
  `RequestRefused`.
- A misaligned buffer sets NO_ZC in the request (main.c:229, 235), and the request is copied back to the
  program (ioctl.c:745). A program that makes its request again then asks for NO_ZC without having
  chosen it. For CIOCCRYPT, which these theorems are about, `MisalignedReuse` says exactly when it cannot
  tell. The asynchronous interface refuses NO_ZC outright (ioctl.c:605-606), so there a misaligned
  request that succeeded is refused when it is submitted again: `ResubmittedAsOriginal` and
  `FetchedAndResubmitted` say exactly when it is answered as the original would be.
- A hash-only session with operation DECRYPT hashes the destination on the zero-copy path and the
  source on the copying path. `PathsAgree` states when the two paths give one result, as an equivalence.
- The TLS pad failure is consulted only when a hash is attached: a record with a malformed pad is
  refused if and only if there is one (`BrokenPadVerdict`, `TlsPads`).
- A TLS record can be empty (stream cipher, no payload, no hash). It is produced, but refused on the way
  back; `TlsRoundTrip` is an equivalence that names this case.
- An SRTP packet whose payload is shorter than its tag, or empty, is encrypted but refused on the way
  back; `SrtpRoundTrip` is an equivalence.
- The distance between `src` and `auth_src` is cut to 32 bits before it is checked (authenc.c:136).
  `SrtpViewIsSrc` says when the view really starts at `src`; `SrtpViewWraps` shows addresses for which
  it does not.
- Copying a hash state holds the source session while it looks the destination up, so it waits for the
  session table with a session in hand. Another thread that has the table and waits for that session
  completes a deadlock, and so does the copying thread itself when source and destination are one.
  `StuckIffJammed` says exactly which states are stuck, `KnotNeverUntied` that such a knot stays for ever,
  and `KnotsIffUnsafe` exactly which programs can tie it: a thread copies a session onto itself, or copies
  from a session that another thread names. Closing the file, which destroys all sessions once the last
  call has returned, never takes part in one. `CopyAndUseDeadlock` and `SelfCopyDeadlocks` are concrete runs.
- A hash reset (cryptlib.c:404-416) neither prepares the completion record nor waits. If a backend
  answered it asynchronously, its late callback would wake the next wrapper.
  `ResetMustBeAnsweredAtOnce` shows that this is exactly what the handshake needs of the backend;
  the other results of `Completion` take it for granted.
- When the kernel pins some pages of a range and not all, the driver reports an error and leaves those
  pinned (zc.c:78-79, authenc.c:152-155); when that happens for a destination it gives back the slots of
  all pages, pinned or not (zc.c:215). `GetUserPages`, `GetUserbuf` and `GetUserbufSrtp` say which;
  pages pinned and pages given back are counted apart, so that giving back too much shows.
- An empty destination that is not null has an entry marked behind the source's; when the source fills
  the array there is no such entry. `GetUserbuf` says exactly when (`past`). This concerns the function
  alone: its callers pass such a destination only with an empty source (main.c:171, authenc.c:718).
- Finishing an unknown sid changes nothing and returns 0; the test meant to return ENOENT cannot hold
  after the list loop (ioctl.c:377): `FinishRemovesOnlyItsSid`.
- The item counter of the job queue is raised before an allocation that may fail (ioctl.c:613-624), so
  failed allocations use up the limit for good: `ItemsConserved` counts them.

Preconditions state what the code needs of its callers: data or a hash, so that a return value is
assigned at all (main.c:188, 224, 266); buffers that are not null where the code dereferences them; a
cipher when the space of a TLS record is computed (authenc.c:193-209 divides by its block size); a tag
no longer than the digest on encryption; an SRTP view that lies inside the authenticated buffer.

## Model

| member | source | states |
|---|---|---|
| `BlockModes.CryptSplit` | main.c:104-159 | for every mode, cutting a request at a multiple of the block and handing the chaining value on gives the output and the final chaining value of the uncut request |
| `BlockModes.CryptInverse` | main.c:56-100 | decrypting an encryption under the same IV restores the data and ends with the same IV, in every mode and for every accepted length |
| `BlockModes.EcbBlocks` | main.c:56-100 | in ECB every output block is the permutation, or its inverse, of the input block at its place, and the IV stays |
| `BlockModes.CbcEncrypts` | main.c:56-100 | in CBC every ciphertext block is the permutation of the plaintext block xor the ciphertext block before it, the IV before the first; the final IV is the last ciphertext block |
| `BlockModes.CbcDecrypts` | main.c:56-100 | the mirror image: every plaintext block is the inverse permutation of the ciphertext block xor the one before it |
| `BlockModes.CtrCounts` | main.c:56-100 | in CTR every output block is the input block xor the permutation of a counter that starts at the IV and counts up as a big-endian number modulo its width; a last short block is allowed |
| `RunSession.Session.HashNCrypt` | main.c:56-100 | hash before encryption, hash after decryption: new memory, IV and hash state are those of one pass, in place or not |
| `RunSession.Session.RunStdPage` | main.c:125-152 | one page through the kernel buffer: unmapped source, unmapped destination and success each leave exactly the specified state |
| `RunSession.Session.RunStd` | main.c:104-159 | without a page buffer nothing happens; with one the page loop computes `StdTransfer`, including where it stops at an unmapped page |
| `RunSession.Session.RunPinned` | main.c:164-182 | one pass over the whole of both pinned ranges |
| `RunSession.Session.RunZc` | main.c:164-182 | the zero-copy path, falling back to copying exactly when the ranges cannot be pinned |
| `RunSession.Session.MarkMisaligned` | main.c:224-237 | the request's flags afterwards: NO_ZC is added when a buffer is misaligned |
| `RunSession.Session.Dispatch` | main.c:224-245 | the path is chosen by the flags as they then are |
| `RunSession.Session.Load` | main.c:202-222 | hash reset, length check and IV in: refused exactly for a length the cipher does not take, and the state the transfer starts from |
| `RunSession.Session.Deliver` | main.c:247-262 | IV out, and the digest at the end of a message |
| `RunSession.Session.CryptoRun` | main.c:184-267 | the whole call: refusals, hash reset, IV in and out, transfer, the flags left in the request, digest; all of it, on every path, and when no page buffer is to be had |
| `RunTheorems.StdPageSplit` | main.c:122-152 | one pass over k + m bytes of memory equals a pass over k followed by a pass over m from the state and memory the first left |
| `RunTheorems.StdIsOnePass` | main.c:104-159 | for every accepted length the page-by-page loop gives the bytes, IV and hash state of one whole-buffer pass, whenever writing the destination does not run over source bytes still to be read |
| `RunTheorems.PathsAgree` | main.c:104-182 | zero-copy and copying give the same outcome if and only if a cipher is attached, the operation encrypts, nothing is hashed, or both ranges hold the same bytes |
| `RunTheorems.TransferIsOnePass` | main.c:224-245 | for mapped ranges, NO_ZC, misalignment and failure to pin are invisible in what one transfer does to memory, IV and hash |
| `RunTheorems.NoZcFlagInvisible` | main.c:202-208 | for CIOCCRYPT, adding NO_ZC to a request changes nothing that a program sees (status, memory, IV, digest), for any hash algorithm and key, if and only if there is no hash, another flag is set, or the hash is freshly reset |
| `RunTheorems.NoZcFlagVisible` | main.c:202-208 | a hash, a session and a request that delivers one digest without NO_ZC and another with it |
| `RunTheorems.MisalignedReuse` | main.c:224-237 | for CIOCCRYPT, a program that makes the request it got back again sees what the original would give, for any hash, if and only if there is no hash, a flag was set, or both buffers are aligned |
| `RunTheorems.StreamIsOneShot` | ioctl.c:685-721 | any cut of a message at block boundaries, over any mixture of paths and flags that chain, with the IV buffer fed back through WRITE_IV or passed only first, ends with the memory, stored IV, hash state and written IV of a single call |
| `RunTheorems.OneShotCall` | main.c:202-262 | a one-shot call delivers the cipher output, the digest of the plaintext alone and the chaining value |
| `RunTheorems.DecryptInvertsEncrypt` | main.c:56-182 | decrypting what was encrypted restores the plaintext, delivers the identical digest and ends with the same IV, whichever path each of the two calls takes |
| `RequestTheorems.StdFaults` | main.c:122-152 | the page loop fails if and only if an address it needs is unmapped, overlapping ranges included |
| `RequestTheorems.RequestStatus` | main.c:184-267 | the status of every request, by its fields: EINVAL for an unknown operation or a ragged length, ENOMEM when it has to be copied and there is no page, EFAULT for an unmapped address, else success; and the flags it comes back with |
| `RequestTheorems.RequestCiphers` | main.c:210-250 | a successful request with a cipher writes the encipherment of its data under its own IV, completed by the stored one, at dst and nothing elsewhere; the chaining value is stored and given back |
| `RequestTheorems.RequestHashes` | main.c:202-262 | a successful request hashes its plaintext after nothing if it has RESET or no flag at all, and otherwise after what the state held; the digest is delivered, and the state spent, exactly with FINAL, without UPDATE or without data |
| `RequestTheorems.RequestKeeps` | main.c:56-100 | however a request ends, a session without a cipher keeps its IV and memory, one without a hash its hash state |
| `RequestTheorems.RequestRefused` | main.c:202-222 | what a request that transfers nothing leaves: reset hash and old IV after a ragged length, both updated after a missing page or without data |
| `HashLog.CallKeepsLog` | main.c:202-262 | one call of any kind (update, final, reset, one-shot, refused, failing) keeps the hash state at the logical message and delivers its digest |
| `HashLog.LogIsState` | main.c:202-262 | after every prefix of every history, an intact log is exactly what the session has absorbed since its reset |
| `HashLog.DigestsMatchLog` | main.c:252-262 | every digest delivered in a history of calls, copies and writes over any number of sessions is the hash of that session's logical message |
| `HashLog.CopyForksLog` | cryptlib.c:445-488 | after a copy between sessions of one algorithm and key both have the log of the source |
| `HashLog.CopyMovesHashOnly` | cryptlib.c:445-488 | a copy moves the hash state and nothing else: the destination's IV, every other session and the memory stay |
| `HashLog.CopiesEvolveIndependently` | ioctl.c:429-452 | however many events that do not name it follow, a session keeps its state and its log |
| `Tls.RecordFitsReserved` | authenc.c:193-209 | the record never outgrows the space reserved for it, and with a hash and real blocks fills it exactly and is block aligned |
| `Tls.PadSizeIsMod` | authenc.c:315-325 | the counted-off pad length is the block size less the remainder that the code computes |
| `Tls.PadFills` | authenc.c:315-325 | a padded text is a whole number of blocks |
| `Tls.PadMonotone` | authenc.c:315-325 | a longer text is padded to at least as much |
| `Tls.PadChecked` | authenc.c:315-349 | the padding put on any text is what the check takes off it |
| `Tls.AcceptedIffSplits` | authenc.c:409-470 | with a hash and a block cipher a decrypted text is accepted with length n if and only if it is n bytes of data, their truncated MAC and p + 1 bytes equal to p, for any legal p |
| `Tls.AcceptedIffTagged` | authenc.c:409-470 | with a hash and a cipher without blocks it is accepted if and only if it is data followed by its truncated MAC |
| `Tls.BrokenPadVerdict` | authenc.c:409-470 | a malformed pad is refused if and only if a hash is attached; without one the whole text is the result |
| `Tls.SealedIsAccepted` | authenc.c:315-349 | every sealed record is judged to be what was sealed, with its length |
| `AuthSession.PadRecord` | authenc.c:315-325 | writes the padding behind the text and nothing else |
| `AuthSession.VerifyTlsRecordPad` | authenc.c:327-349 | finds the pad length exactly when the last p + 1 bytes all equal p |
| `AuthSession.AppendTag` | authenc.c:367-394 | hashes auth data and payload and writes the truncated MAC behind the payload, and nothing without a hash |
| `AuthSession.AssembleRecord` | authenc.c:354-407 | tag and pad written in place behind the payload make the plaintext record, inside the reserved space |
| `AuthSession.TlsEncrypt` | authenc.c:354-407 | the whole effect of sealing in place: memory, IV, hash state and length |
| `AuthSession.TlsVerify` | authenc.c:409-470 | the verdict on decrypted text, with the pad failure remembered until the tag is compared |
| `AuthSession.TlsDecrypt` | authenc.c:354-471 | the whole effect of opening in place, ragged lengths refused |
| `AuthSession.SrtpEncrypt` | authenc.c:476-560 | encrypts the view, hashes the buffer as it then is, writes the tag |
| `AuthSession.SrtpDecrypt` | authenc.c:476-560 | the tag is verified before anything is written |
| `AuthSession.CryptoAuthZcTls` | authenc.c:638-683 | the checks before a TLS record is processed, in their order, over get_userbuf_tls; every page pinned is given back once, except those of a partial pin |
| `AuthSession.CryptoAuthZcSrtp` | authenc.c:612-636 | the checks before an SRTP packet is processed, in their order, over get_userbuf_srtp; every page pinned is given back once, except those of a partial pin |
| `AuthSession.CryptoAuthRun` | authenc.c:799-849 | the whole call: refusals, hash reset, IV in and out, both modes, what the program sees, and which pages stay pinned |
| `AuthEffects.NotServed` | authenc.c:777-849 | a request for an unknown operation, in neither mode, or on a session without a cipher gets EINVAL and changes nothing |
| `AuthEffects.TlsStatus` | authenc.c:638-683 | the status of every TLS request: which refusals there are, in which order, each leaving memory and IV alone; every other encryption succeeds |
| `AuthEffects.TlsEncrypts` | authenc.c:211-407 | a successful encryption leaves at dst the encipherment, under the IV passed in, of payload, truncated MAC of the bytes at auth_src (none if null) and payload, and pad, and nothing else; a tag length of zero means the whole digest; the chaining value is written back on request and not otherwise |
| `AuthEffects.TlsDecrypts` | authenc.c:409-471 | a decryption that is not refused deciphers the record in place, whatever the verdict, and gives the IV back on success and on request |
| `AuthEffects.TlsAccepts` | authenc.c:327-471 | the whole decrypt call with a hash attached succeeds with length n if and only if the deciphered text is n bytes of data, the truncated MAC of the bytes at auth_src (none if null) and that data, and a legal pad |
| `AuthEffects.TlsPads` | authenc.c:409-471 | without a hash every such call succeeds with what a legal pad leaves; a record without a legal pad is refused if and only if a hash is attached |
| `AuthEffects.SrtpStatus` | authenc.c:105-173 | the status of every SRTP request: which refusals there are, in which order; every other encryption succeeds unless it has a tag and nowhere to put it |
| `AuthEffects.SrtpEncrypts` | authenc.c:476-560 | the payload is enciphered in place and the tag is the truncated MAC of the buffer as it is then; nothing else is written |
| `AuthEffects.SrtpDecrypts` | authenc.c:476-560 | a packet is accepted if and only if there is no hash or its tag, no longer than the payload, is the truncated MAC of the buffer; then the payload is deciphered in place, else memory stays |
| `AuthTheorems.TlsRoundTrip` | authenc.c:193-471 | for every payload, auth data, tag length and block size, encrypting and then decrypting with the returned length and the same IV restores payload and length and touches nothing outside the record, if and only if the record is not empty |
| `AuthTheorems.SrtpViewIsSrc` | authenc.c:136-140 | the view starts at src if and only if the true difference is within the bound |
| `AuthTheorems.SrtpViewWraps` | authenc.c:136-140 | addresses four gigabytes apart pass the check as if they were equal |
| `AuthTheorems.SrtpEncryptFrame` | authenc.c:476-560 | encryption changes only the payload and the tag, and the tag is the MAC of the buffer as it is afterwards |
| `AuthTheorems.SrtpAcceptsOrLeavesMemory` | authenc.c:476-560 | a packet is accepted if and only if its tag, no longer than the payload, is the truncated MAC; every refusal leaves all user memory as it was |
| `AuthTheorems.SrtpRoundTrip` | authenc.c:105-173 | decrypting an encrypted packet restores the buffer, length and IV if and only if it has a payload no shorter than its tag |
| `Scatterlist.Advanced` | util.c:43-50 | moving an entry's offset, also across page boundaries, drops exactly that many addresses |
| `Scatterlist.SgAdvance` | util.c:28-53 | drops exactly `consumed` addresses, changes one entry only, and returns NULL, changing nothing, if and only if nothing remains |
| `Scatterlist.CopyWholeEntries` | util.c:59-79 | the copying loop passes whole entries, and stops early only when the copy cannot succeed |
| `Scatterlist.SgCopy` | util.c:59-79 | the target list covers the first `len` addresses of the source, which stays as it was; it fails if and only if the source covers fewer or the target has too few entries; a copy of nothing cuts the target to its first entry |
| `Scatterlist.CoversFlat` | util.c:59-79 | a list covers the concatenation of its entries up to the first one marked last |
| `ZeroCopy.PageCountOfLonger` | zc.h:18-23 | the larger of two page counts of one buffer is the count of the longer range |
| `ZeroCopy.TileBounds` | zc.h:18-23 | a walk over the page-aligned tiles of a range ends after exactly PAGECOUNT of them |
| `ZeroCopy.PageTable.AdjustSgArray` | zc.c:96-120 | doubles until the request fits; both arrays keep their contents and stay valid up to the recorded size whichever allocation fails |
| `ZeroCopy.PageTable.FillEntries` | zc.c:81-93 | exactly PAGECOUNT fragments, each within its own page and page-aligned after the first, concatenate to exactly the user range |
| `ZeroCopy.PageTable.PinPages` | zc.c:61-79 | pins as many pages as the kernel manages, each once, in order |
| `ZeroCopy.PageTable.GetUserPages` | zc.c:49-94 | succeeds if and only if all pages of the range could be pinned, and then has built its list; the slots hold exactly the pages pinned, which stay so after a failure; slots outside the slice stay as they were |
| `ZeroCopy.PageTable.ReleaseUserPages` | zc.c:122-138 | every slot in use is given back exactly once |
| `ZeroCopy.PageTable.GetSeparate` | zc.c:192-219 | source and destination lists in disjoint slices, each covering exactly its range |
| `ZeroCopy.PageTable.GetInPlace` | zc.c:177-190 | one list over the longer of the two lengths |
| `ZeroCopy.PageTable.GetUserbuf` | zc.c:143-220 | exactly when it succeeds, runs out of memory or fails to pin; both lists cover exactly their ranges in disjoint slices of arrays grown to hold them; the slots in use hold exactly the pages of the ranges, each pinned once; and which pages were pinned and which given back after each kind of failure |
| `ZeroCopy.PageTable.GetUserbufTls` | authenc.c:54-94 | one list covers exactly the destination; exactly when it succeeds, and what stays pinned |
| `ZeroCopy.PageTable.SecondView` | authenc.c:160-170 | the second list covers the buffer from `diff` on while the first stays as it was |
| `ZeroCopy.PageTable.GetUserbufSrtp` | authenc.c:105-173 | auth_sg covers the authenticated buffer and dst_sg the rest of it from `diff` on; fails if and only if memory or a page is refused or nothing remains; no page stays pinned after a failure, except those of a partial pin |
| `PinnedRun.ListsMakeTransfer` | main.c:164-182 | reading memory through lists that cover the ranges, one pass, and writing through them is the zero-copy transfer |
| `PinnedRun.RunZeroCopy` | main.c:164-182 | over the lists of get_userbuf: the outcome is that of processing the data through them, and every page pinned is given back once; when get_userbuf fails, exactly then, it is that of the copying path |
| `PinnedAuth.TlsSealsOverList` | authenc.c:354-407 | sealing a record through the list of get_userbuf_tls is sealing it in the reserved range |
| `PinnedAuth.TlsOpensOverList` | authenc.c:409-470 | opening a record through that list is opening it in the range |
| `PinnedAuth.SrtpOverLists` | authenc.c:476-560 | processing a packet through the two lists of get_userbuf_srtp, payload through one and MAC through the other, is processing the memory, in both directions |
| `AsyncQueue.RunKeepsInv` | ioctl.c:601-669 | ownership, counting, order and wake-up invariants in every reachable state |
| `AsyncQueue.RunRecords` | ioctl.c:601-636 | what a run has recorded is what its actions did: the job each thread submitted last is the one it puts into todo, and each run of crypto_run leaves its value and flag |
| `AsyncQueue.FifoExactlyOnce` | ioctl.c:455-480 | the jobs delivered to fetchers, then those in done, worker-local and todo, are the jobs threads submitted, in todo-lock order; the k-th job run is the k-th of these with the value and flag of the k-th run; the k-th delivery is that, a fetcher holds the delivery of its turn, and no two fetchers have the same turn |
| `AsyncQueue.NoStrandedJob` | ioctl.c:461-464 | if todo is not empty the work item is pending, or a worker has yet to cut the list, or a submitter is about to queue the work; while a job waits anywhere before done, a step that brings it on is possible |
| `AsyncQueue.ItemsConserved` | ioctl.c:601-636 | every item is in exactly one place; items, allocations under way and failed ones add up to itemcount, from 16 to at most 64; submission is refused, changing nothing, if and only if the request has NO_ZC set, or nothing is free and the limit is reached |
| `AsyncReuse.ResubmittedAsOriginal` | ioctl.c:601-606 | a request that came back is answered, when submitted again to any queue, as the original would be, if and only if it had NO_ZC set, failed, carried no data, or has both buffers aligned |
| `AsyncReuse.FetchedAndResubmitted` | ioctl.c:934-939 | in every reachable state, a fetcher has the request as crypto_run left it, whatever else was queued, so the same holds of it |
| `AsyncQueue.ReleaseFreesEachOnce` | ioctl.c:538-578 | release frees every item exactly once, short of the counted ones by the failed allocations |
| `SessionTable.RunKeepsInv` | ioctl.c:308-452 | lock ownership, list membership and sid invariants in every reachable state of any number of threads |
| `SessionTable.HeldSessionsAreSafe` | ioctl.c:342-425 | no step ever touches a freed session; whatever a thread holds or waits for is allocated; at most one thread is inside a session, which has the sid it asked for; linked sids are distinct |
| `SessionTable.FinishRemovesOnlyItsSid` | ioctl.c:361-384 | finishing a sid unlinks its one session and no other; an unknown sid changes nothing |
| `SessionTable.WithoutKeepsDistinct` | ioctl.c:361-384 | unlinking a session keeps the remaining sids distinct |
| `Deadlock.StuckIffJammed` | ioctl.c:308-452 | with an unfinished thread, no thread can step if and only if the table's holder awaits a session held by a thread in the second lookup of a copy and every other thread is finished or waits for the table |
| `Deadlock.KnotNeverUntied` | ioctl.c:407-452 | once the table's holder awaits such a session, neither thread moves again and the table stays locked, whatever the others do |
| `Deadlock.KnotNamesSource` | ioctl.c:429-452 | in every reachable knot the other thread is in a copy of its own program, and the table holder's own program names the session that it copies from |
| `Deadlock.StepClosesAlone` | ioctl.c:538-578 | sessions are all destroyed only when every other thread is finished |
| `Deadlock.DeadlockFree` | ioctl.c:308-452 | if nobody copies a session onto itself or from a session that another thread names, every reachable state with an unfinished thread has a thread that can step, closing the file included; programs without copies are a special case |
| `Deadlock.UnsafeKnots` | ioctl.c:308-452 | beside a thread that starts by creating two sessions, other threads that break that rule can reach a knot, whatever it does later; the run is constructed for all such programs |
| `Deadlock.KnotsIffUnsafe` | ioctl.c:308-452 | beside a thread that starts by creating two sessions and names none, a knot is reachable if and only if the programs break that rule |
| `Deadlock.CopyAndUseDeadlock` | ioctl.c:407-452 | a run of two threads, a copy and a lookup of its source, that ends with no thread able to step |
| `Deadlock.SelfCopyDeadlocks` | ioctl.c:429-452 | a run of one thread that ends in a deadlock with itself |
| `FileRelease.ReleaseLeavesNothing` | ioctl.c:386-403 | when the release of the file has returned no session is linked and none is allocated; before, whatever is allocated is linked or about to be freed |
| `FileRelease.ReleaseTerminates` | ioctl.c:386-403 | in a closed file one thread at most is unfinished, it can always step, and every step brings it nearer to its end |
| `Completion.RunKeepsInv` | cryptlib.c:276-346 | the handshake invariant over every sequence of requests and every backend behaviour, provided hash resets are answered at once |
| `Completion.AnswersAreGiven` | cryptlib.c:303-346 | a recorded answer is what the backend answered when that very request was handed over |
| `Completion.ReturnsOwnStatus` | cryptlib.c:276-301 | after the answer -EINPROGRESS or -EBUSY a wrapper returns the status of the final callback of its own request, which came before; after any other answer it returns that |
| `Completion.CallbacksAreOwn` | cryptlib.c:45-54 | callbacks concern only the request whose wrapper has not returned; none is outstanding after a return |
| `Completion.WakesExactlyWhenFinal` | cryptlib.c:276-301 | a waiting wrapper can wake if and only if its own request has had its final callback: notices and earlier requests never wake it, and no wake-up is lost |
| `Completion.SignalledOnce` | cryptlib.c:45-54 | the final callback of a request comes at most once |
| `Completion.FinalsAreSignalled` | cryptlib.c:418-441 | every recorded status was stored and signalled by one final callback of that very request |
| `Completion.ResetMustBeAnsweredAtOnce` | cryptlib.c:404-416 | after any run, a hash reset leaves every way of going on without an early return if and only if the backend answers it at once; the converse constructs the run |

## Left out

- The ciphers, digests and GCM themselves: kernel code, kept abstract as a block permutation and a function of the message.
- `auth_n_crypt` and `crypto_auth_zc_aead` (AEAD sessions): essentially one kernel call each.
- Algorithm names, key sizes, key packing and `get_session_info`: table lookups and straight-line copies.
- compat ioctls, copying request structures to and from user space, cloning descriptors, module start-up, sysctl and debug output.
- RunSession.Session.CryptoRun: the kernel's copies of the IV and the flags are in the reply, not the copying of them to the program's memory; `RunTheorems.Stream` and `RunEngine.CopiedBack` say what the program has.
- AuthSession.CryptoAuthRun: the program's IV buffer is a value of its own and not part of its memory.
- RunTheorems.TransferIsOnePass: for ranges that are mapped and a page buffer that is available; where the copying path stops at an unmapped page is in `StdTransfer` and `RunStd`.
- RequestTheorems.RequestHashes: as `RequestCiphers`, for data that is mapped and not overwritten before it is read; `RequestStatus` and `RequestKeeps` hold without that.
- AuthEffects.TlsAccepts: as `SrtpDecrypts`, for tags no longer than the digest; a longer one is compared with what the digest buffer held before, as `Verdict` and `SrtpOpen` say.
- Failures inside the kernel's cipher and hash calls, other than refused lengths: the transfer functions take these calls to succeed, while `Completion` covers how their statuses travel.
- Partially copied pages: a copy from or to user memory that faults copies nothing.
- Source and destination ranges that partly overlap: the zero-copy pass is taken to read its whole input before it writes, since the order in which the kernel walks the two lists is not the driver's.
- 32-bit overflow of lengths; the one narrowing that matters, of the SRTP address difference, is modelled.
- Page dirty and flush flags.
- ZeroCopy.PageTable.GetUserbuf: a mark behind the last entry of the array is reported and not carried out, since what it would overwrite is not the driver's.
- The session list, the job lists and the mutexes of ioctl.c, and the completion record of cryptlib.c, are values of interleaving state machines and not objects updated in place: threads step between each other's updates there, which a sequential method cannot express. Pointer structure of the kernel's lists is not captured.
- AsyncQueue.RunKeepsInv: a critical section under a list mutex is one step, and two instances of the work item never run at once, as the kernel's workqueue guarantees.
- SessionTable.RunKeepsInv: unlocking, destroying and freeing a session at the end of its destruction are one step. A file that is closed while programs have calls left is a run with shorter programs.
- Deadlock.KnotsIffUnsafe: which programs reach a knot without another thread that creates sessions depends on the order of their own creations and destructions, and is not characterised.
- Completion.RunKeepsInv: a backend that refuses a request with EBUSY without ever calling back is not modelled, since requests are made with the flag that asks for a backlog.
- The hash-state copy of cryptlib.c:445-488 acts on values in `HashLog`; its allocation failure is not modelled.
- poll, wake-ups of readers, and timing of MAC and pad checks.
- The examples, lib and tests directories: client programs.
