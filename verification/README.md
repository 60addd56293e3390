# jpgsync: verification model

jpgsync brings two directories of JPEG images to the same contents. On each side a *peer* hashes the EXIF
data of its images, tells the other peer which hashes it has (the *update*, sent as datagrams that may be
lost), offers what the other peer has not reported, and sends the images that the other peer says are missing.
This project models that protocol, the queue it is fed from, the bytes it exchanges and the two parsers of
the launcher, and proves what they keep.

## How it is organised

| file | what it holds |
|---|---|
| `Codec.dfy` | bytes, big-endian words, digests, update datagrams and the receiver's buffer |
| `FoundMask.dfy` | the bitmask that answers an offer, as written and with one bit per offered hash |
| `Entries.dfy` | hashed images, the choice of what is missing, file names |
| `Framing.dfy` | offers and image records on the wire, and how they are read |
| `FileStore.dfy` | where a downloaded image is stored, and how its paths are spelt |
| `Hasher.dfy` | the hasher's queue under every interleaving of producer and consumer |
| `ExifHasherList.dfy` | the class `ExifHasher` with its linked list, refined to the queue |
| `Transport.dfy` | the loops around short reads and short writes |
| `PeerLoops.dfy` | the loops over an offer, an answer and the entry list, refined to the functions of the model |
| `SyncModel.dfy` | two peers, their threads, four byte streams and the datagrams as one step system |
| `SyncInvariant.dfy` | the inductive invariant of that system |
| `SyncProgress.dfy`, `SyncMeasure.dfy` | a state that is not final has a step; every step of a thread uses up work |
| `SyncRuns.dfy` | what runs keep, when answers are read as is asked, termination, progress |
| `SyncTheorems.dfy` | convergence, minimal transfer, framing and the other statements about states and ends of runs |
| `Placement.dfy` | the path of each download over whole runs, and when none is refused |
| `SyncReach.dfy` | reachable states, put together from the moves of one peer after the other |
| `EarlyExit.dfy` | what the exit as written loses, exactly when, and what converging means |
| `MaskErrors.dfy` | what the mask as written makes the uploader send, and how many records |
| `MaskRuns.dfy` | the first offer of a peer under the written mask, and exactly when all answers are read as is asked |
| `Misread.dfy` | what a misread answer does to the rest of a run, and that only runs without one converge |
| `MixedUp.dfy` | inputs and runs in which the written mask puts one image in the place of another, and exactly when there are none |
| `OutOfStep.dfy` | what happens when more records are sent than awaited: peers give up, or wait for each other for ever |
| `ProgramOptions.dfy` | the scan of the command line and the compaction of `argv` |
| `Address.dfy` | ports and `host:port` |

`Sys` holds two `Peer`s. Each peer has a hasher, a downloader (which first sends the update), an uploader and
an update receiver; a step is one atomic action of one of them. A `Stream` is one direction of a connection:
bytes still to be written, bytes in transit (at most `capacity`, for any capacity from 1), bytes read. A write
or a read moves any number of bytes that fits. The receiver of the update may find any sequence of the
datagrams ever sent, each any number of times, and its buffer may join or cut them. That is more than the
program does by default: a read of the datagram socket takes just one datagram (`src/protocol.hpp:96-101`), so
what is proved for every way of joining and cutting holds of it too. `Step` is written for peer `a`; `View` and
`Swap` turn it into the steps of either peer.

`Config` carries the two places at which the code does not do what it is for, so that each statement says
which version it is about:

* **The mask.** As written, the encoder does not advance past a hash that was found
  (`src/peer.cpp:189` jumps over line 193), and neither side starts again at bit 0 in the next byte.
  `OneBitPerEntry` is the mask that is meant, and it always agrees. `Written` agrees if and only if at most
  one offered hash was found and it is among the first eight (`FoundMask.WrittenAgreement`), and exactly then
  the uploader sends the images that are awaited (`MaskErrors.WrittenSelection`). It never sends fewer records
  than are awaited, and as many if and only if no two neighbours were found and none behind eight that are
  missing (`MaskErrors.WrittenRecordCount`).
  Statements about states and runs take a parameter `how: Answers` that says what is asked of the answers *in that
  run* (`Agreeing`): `AsMeant`, that just the missing entries are taken from each; `InNumber`, that as many are
  taken as are missing; `Anyhow`, nothing.
  - `Anyhow` is enough for `SyncInvariant.StepPeer`, `SyncRuns.Termination` and `SyncRuns.RunsEnd`.
  - `InNumber` is enough for the invariant, framing, deadlock-freedom and that no peer gives up
    (`SyncRuns.RunKeeps`, `SyncTheorems.SessionFraming`, `SyncRuns.DeadlockFreedom`, `SyncTheorems.NeverFatal`),
    and for every statement whose `how` is only asked not to be `Anyhow`.
  - `AsMeant` is needed for what was transferred: `SyncTheorems.Convergence`, `MinimalTransfer`, `DownloadedAtEnd`,
    `ReachedExactly`.

  A condition on the inputs gives either of the last two for all runs, for lists of any length: that the written
  answer about *all* images of either peer could be read so (`CanTell`, `SyncRuns.SufficientRunsAgree`). It is also
  necessary if the lists fit in one offer (`MaskRuns.AnswersExactly`). For `AsMeant` it says that the peers have at
  most one image in common, among the first eight of either (`MaskRuns.EarlyExactly`); for `InNumber` it is then
  exactly when offers are read as they were made (`OutOfStep.FramingExactly`).
  Where the number is right and the images are not, another image is stored under the hash of one that is missing,
  and both peers finish as if nothing had happened (`MixedUp.ImageMixedUp`, and `MixedUp.MiddleImageLost` with three
  images). What is lost so is never made good: a complete run whose answers are right in number ends with the union
  if and only if all of them were read as they were meant (`Misread.MeantExactly`).
  Where the number is wrong, a record is read as an offer: the peer can give up (`OutOfStep.SurplusAborts`,
  `OutOfStep.SameImagesAbort`), and the two peers can wait for each other for ever, without any message
  (`OutOfStep.WaitForEachOther`, and `OutOfStep.SmallOnesWait` with 27 images).
* **The uploader's exit.** As written, the uploader loads the entry count before it takes the lock and tests
  `hashing`, so a batch published in between is lost. `RereadExit` reads the count once more when hashing is
  over. Any image that the other peer lacks can be lost by the written exit (`EarlyExit.ImageLeftBehind`), so
  that all complete runs bring all images across if and only if the other peer has them from the start
  (`EarlyExit.WrittenExitExactly`), and both end with the union if and only if they start with the same images
  (`EarlyExit.WrittenConvergence`). `SyncTheorems.ExitExactly` says when leaving is right, and
  `SyncTheorems.ReachedExactly` what a complete run of either version has transferred.

So, of the property that the program is for, this is proved: with both places repaired, all complete runs of all
valid inputs end with the union, and no run hangs or gives up (`SyncTheorems.Convergence`, `MixedUp.SafeConverges`,
`OutOfStep.InStepGoesOn`). With the exit as written, they all do if and only if there is nothing to transfer. With the
exit repaired and the mask as written, for images that look different on the wire and whose answers are right in
number, they all do if and only if the peers have at most one image in common, among the first eight of either
(`MixedUp.ConvergenceExactly`).

A third deviation is in the hasher: credits are computed from the number of distinct hashes, so they match the
list for all inputs exactly if duplicates are dropped or the threshold is 1 (`CreditsMatchExactly`). All
callers choose one of the two.

The benchmark script is the only place that states the purpose: it expects both directories to end with the
union of the images (`scripts/sample.py:274-277`) and takes the symmetric difference as the least possible
traffic (`scripts/sample.py:243-245`). `Convergence` and `MinimalTransfer` are these two, with one exception
that the code makes: an image both of whose file names are taken is received, discarded and reported.

What is assumed of the inputs (`ValidEnv`): every image that is hashed is a file that is not empty and has
less than 2^32 bytes. The path lists are finite. A run ends in `UFatal` or `DFatal` where the program calls
`Fatal`; `NeverFatal` shows that this does not happen while as many entries are taken from answers as are
awaited. A peer *has* an image that it stored only if the file still holds the very record of the image with
that hash.

## Model

| member | source | states |
|---|---|---|
| `SyncTheorems.Convergence` | src/peer.cpp:94-445 | with the exit repaired, at the end of every complete run from any two valid inputs whose answers are read as they were meant, whatever datagrams were lost, repeated or reordered, each peer has exactly the union of both sets of images, except those it reports as conflicts; each downloaded file has the very bytes of the file of the image with its hash, under the end of that image's path behind the last slash, in a file of its own that was empty; no file that had contents has changed; each peer sent exactly the images that the other lacked, in order, once each |
| `SyncTheorems.RecordCopies` | src/peer.cpp:401-427 | what is sent of an image is the bytes of its file and what follows the last slash of its path, a name longer than 255 bytes being cut, and nothing else is |
| `Placement.AllStored` | src/peer.cpp:220-232 | if moreover the second path of every image of one peer, the one with the hash, is free at the other peer from the start, and no image has the name of such a path, then none is refused: images of one name with different hashes are all stored |
| `Placement.RunPlaced` | src/peer.cpp:220-232 | in every run whose answers are right in number, each download is at the first of its two paths that was free at the start and is not that of an earlier download, and is refused exactly if neither is |
| `SyncRuns.Termination` | src/peer.cpp:94-442 | in every run, with either mask and whether answers are read as they were meant or not, the threads make no more steps than the initial work plus two for each spurious wake-up, however the environment behaves |
| `SyncRuns.RunsEnd` | src/peer.cpp:59-446 | so every run of two peers with valid inputs is bounded by the work that the inputs make |
| `SyncInvariant.StepPeer` | src/peer.cpp:94-442 | what holds of a peer by itself (its queue, counters, offers, and that no file with contents changes) is kept by all of its steps, also after an answer that was misread |
| `SyncRuns.DeadlockFreedom` | src/peer.cpp:307-344 | every state that is not final and is reached by a run in which as many entries are taken from each answer as are awaited, be they the right ones or not, lets some thread, not the environment, go on |
| `SyncRuns.Completion` | src/peer.cpp:94-445 | from every state that satisfies the invariant, the threads alone can bring both peers to their end, with the intended mask; with the written one if the answers still to come will be right in number, which holds if the condition on the inputs does, or all common images were reported, or there are no more offers |
| `SyncRuns.RunKeeps` | src/peer.cpp:94-445 | the invariant holds after every run in which as many entries are taken from each answer as are awaited, and its stronger form after every run whose answers are read as they were meant |
| `SyncRuns.Reachable` | src/peer.cpp:59-446 | so the invariant, and with it every statement below about a state that satisfies it, holds in every state that such a run reaches from valid inputs |
| `SyncRuns.OneBitRunsAgree` | src/peer.cpp:177-195 | with one bit per offered hash, which is what the code is meant to compute, every answer of every run is read as it was meant |
| `SyncRuns.SafeRunsAgree` | src/peer.cpp:177-195 | for either mask, from every state in which the answers to come will be read as is asked, they are in every run |
| `SyncRuns.SufficientRunsAgree` | src/peer.cpp:177-195 | for lists of any length, it is so in every run of two peers for all of whose images the answers could be read as is asked |
| `SyncRuns.EarlyRunsAgree` | src/peer.cpp:177-195 | with the mask as written, every answer is read as it was meant in every run of two peers that have at most one image in common, among the first eight in both lists |
| `SyncRuns.DisjointRunsAgree` | src/peer.cpp:177-195 | so it is in every run of two peers that have none in common |
| `MaskRuns.AnswersExactly` | src/peer.cpp:177-195 | with the mask as written, for what is asked of answers in number and as meant alike: this condition on the inputs is exact if both lists fit in one offer; for longer lists it is enough, and it is necessary within the first offer of either peer |
| `MaskRuns.EarlyExactly` | src/peer.cpp:177-195 | with the mask as written, at most one common image, early in both lists, is exactly when all answers are read as they were meant, if both lists fit in one offer; for longer lists it is enough, and it is necessary within the first offer of either peer |
| `MaskErrors.WrittenSelection` | src/peer.cpp:397-436 | for every offer, the uploader sends just what is missing if and only if at most one hash was found and it is among the first eight |
| `MaskErrors.WrittenRecordCount` | src/peer.cpp:397-436 | for every offer, it sends at least as many records as are awaited, and as many if and only if no two neighbours were found and none behind eight that are missing |
| `MaskErrors.TellsExactly` | src/peer.cpp:177-195 | for every offer, which found hashes let the written answer be read in number, and which as it was meant |
| `MaskErrors.TellsLess` | src/peer.cpp:348-361 | leaving reported entries out of an offer never makes its answer read worse |
| `Misread.MeantExactly` | src/peer.cpp:94-445 | with the exit repaired and either mask, for images that differ on the wire and lists of any length: a complete run, in which as many entries were taken from each answer as were awaited, ends with the union at both peers if and only if every one of its answers was read as it was meant |
| `Misread.RunAwaits` | src/peer.cpp:177-246 | in every run whose answers are right in number, the hashes under which images were stored or are awaited are just those missing from the answered offers, each in its turn, and neither they nor the images taken for them ever change |
| `Misread.MisreadSpoils` | src/peer.cpp:387-401 | an answer that is right in number and misread makes some image be taken for a hash that is not its own |
| `Misread.SpoiltLost` | src/peer.cpp:203-246 | at the end of a complete run, a hash for which another image was taken is that of an image of the uploading peer which the other one lacked, and which it neither has nor refused |
| `MixedUp.ImageMixedUp` | src/peer.cpp:177-246 | for all valid inputs, lists of any length, in which no two images of the uploading peer are the same on the wire: if the written answer about all of its images would be right in number but not as meant, there is a complete run after which one of them has neither reached the other peer nor been refused there, because another one stands under its hash; the other peer may have any images of its own |
| `MixedUp.MiddleImageLost` | src/peer.cpp:177-246 | three images, of which the other peer has the first and the last, are such a case |
| `MixedUp.ConvergenceExactly` | src/peer.cpp:94-445 | with the mask as written and the exit repaired, for lists of any length, images that differ on the wire and answers that are right in number: all complete runs end with the union at both if and only if the peers have at most one image in common, among the first eight of either |
| `MixedUp.SafeConverges` | src/peer.cpp:94-445 | with the exit repaired, all complete runs of all valid inputs end with the union at both if the mask is the one that is meant, and with the mask as written where it suffices |
| `OutOfStep.InStepGoesOn` | src/peer.cpp:94-442 | two peers for whose images the mask is right in number, though it may name wrong ones, never wait for each other and never give up, in any reachable state |
| `OutOfStep.FramingExactly` | src/peer.cpp:161-172 | with the mask as written, a downloader between offers has always read the beginning of an offer that was made if the answers about all images are right in number, for lists of any length, and only if those about the first offers are; so if and only if for lists that fit in one offer |
| `OutOfStep.DecidedWasMade` | src/peer.cpp:167-172 | such a downloader decides only offers that were made, hash by hash |
| `OutOfStep.WaitForEachOther` | src/peer.cpp:161-172 | with the mask as written, either exit and any capacity, for a peer with more than 26 images that has all images of the other one: if records are sent for its first offer that are not awaited, and they and the next offer are fewer bytes than the length of the first surplus name announces when it is read as a count, a state is reached that is not final, in which no peer has given up, and in which neither a thread nor the environment has any step |
| `OutOfStep.TwoFoundWait` | src/peer.cpp:177-195 | it is enough that the other peer has the first two of more than 26 images, none of the next 24 and none of its own, and that the name of the 26th is long enough for its contents |
| `OutOfStep.SmallOnesWait` | src/peer.cpp:177-195 | 27 images of one byte with names of two, of which the other peer has the first two, are such a case |
| `OutOfStep.SurplusAborts` | src/peer.cpp:163-166 | whenever more records are sent for the first offer of a peer, with nothing reported, than are awaited, and the first surplus name is longer than 26 bytes, the downloader can come to reject it as an invalid offer |
| `OutOfStep.SurplusCutShort` | src/peer.cpp:169-172 | with a list that fits in one offer, surplus records of fewer bytes than the first name announces as a count make the downloader give up at the end of the stream |
| `OutOfStep.SameImagesAbort` | src/peer.cpp:163-166 | a peer that has 2 to 26 images with names longer than 26 bytes, all of them at the other peer too, can make that peer end with an invalid offer when its update is lost |
| `SyncTheorems.MinimalTransfer` | src/peer.cpp:399-435 | in every reachable state: no image was sent twice, none whose hash the other peer has, and none before the other peer's own list was final; nothing is assumed of the update |
| `SyncTheorems.SessionFraming` | src/peer.cpp:203-246 | the downloads are, in order, the end of the path and the bytes of the file of each image sent, and with answers read as they were meant its hash; the bytes in flight are exactly the records not yet downloaded, followed by the open offer while its answer is not under way; an answer in flight has just enough bytes for one bit per offered hash; at the end nothing is left over |
| `SyncTheorems.NeverFatal` | src/peer.cpp:163-172 | while as many entries are taken from answers as are awaited, neither the check of an offer's count nor any other check of a length or an end of stream fires, and every chosen file can be read |
| `SyncTheorems.UploaderCoverage` | src/peer.cpp:331-367 | processed count, published count, delivered entries and list length are ordered; the offers so far are the processed prefix without what was reported, in order; an offer holds 1 to 26 hashes |
| `SyncTheorems.SummaryFrozen` | src/peer.cpp:281-320 | the reported hashes are always hashes of the other peer; once the update is marked as over, that peer has sent all of it and no step changes them |
| `SyncTheorems.UpdateBatches` | src/peer.cpp:98-128 | credits come 27 at a time; a batch of the update has 27 hashes, or fewer only when hashing is over, and then all that are left; its datagram is just their digests, the last one in front |
| `SyncTheorems.PhaseOrder` | src/peer.cpp:161-194 | an offer is decided, and a file is written, only when the peer's own list is complete and final; no step after that changes the list |
| `SyncTheorems.Handshake` | src/peer.cpp:334-344 | an uploader that sleeps does so only while hashing goes on, and both notifications, and a spurious wake-up, make it load the entry count again; with the re-read it leaves only when every image was processed |
| `SyncTheorems.ExitExactly` | src/peer.cpp:336-340 | when hashing is seen to be over, every image was processed if and only if the count read at that moment equals the processed count; the written exit leaves in any case, the re-read one just then |
| `SyncTheorems.ReachedExactly` | src/peer.cpp:334-344 | a complete run, with either exit, brought every image of one peer to the other (or had it refused there) if and only if the other had all images that the uploader did not process |
| `SyncTheorems.DownloadedAtEnd` | src/peer.cpp:203-246 | after a complete run, with either exit, a hash is present or refused exactly if it was there before or belongs to a processed image |
| `EarlyExit.ImageLeftBehind` | src/peer.cpp:334-344 | for any valid inputs, either mask, and any image that the other peer lacks, a run of the exit as written in which all answers are read as they were meant, both peers finish in order, and that image is neither there nor refused |
| `EarlyExit.WrittenExitExactly` | src/peer.cpp:334-344 | with the exit as written, and either mask, all complete runs bring all images across if and only if the other peer has them all from the start |
| `EarlyExit.WrittenConvergence` | src/peer.cpp:334-344 | with the exit as written, and either mask, all complete runs of any valid inputs end with the union at both peers if and only if both have the same images from the start |
| `EarlyExit.ConvergesBothWays` | scripts/sample.py:274-277 | ending with the union is the same as bringing all images across both ways, since a peer never gets an image that neither had |
| `EarlyExit.OneImageLeftBehind` | src/peer.cpp:334-344 | one image at one peer is such a case, with either mask |
| `SyncInvariant.InitKeeps` | src/peer.cpp:59-66 | two peers with valid inputs start within the invariant |
| `SyncInvariant.StepKeeps` | src/peer.cpp:94-442 | every step of every thread, and of the environment, keeps it, provided that an answer is read as is asked: in number, or as it was meant |
| `SyncInvariant.ScanFinds` | src/peer.cpp:346-361 | the walk finds, in order, exactly the unreported entries it passes, never more than an offer holds, and stops only at the count or with a full offer |
| `SyncInvariant.AnswerRead` | src/peer.cpp:388-401 | the uploader selects from the answer as many entries as are awaited, and if answers are read as they were meant, exactly the offered ones that the other peer lacks |
| `SyncInvariant.CompleteRecord` | src/peer.cpp:203-238 | a record that has arrived is that of the next image sent and not yet downloaded, and with answers read as they were meant it is awaited under that image's hash |
| `SyncInvariant.NothingUnread` | src/peer.cpp:161-162 | the end of an upload is met only between offers, with every image downloaded |
| `SyncInvariant.StoreGot` | src/peer.cpp:220-238 | storing an image, under whatever hash, leaves every earlier download and every file that had contents as they were |
| `SyncProgress.NeverStuck` | src/peer.cpp:94-442 | a state within the invariant, also the weaker one, that is not final has a step of a thread |
| `SyncMeasure.StepWeight` | src/peer.cpp:94-442 | every step of a thread leaves less work; a spurious wake-up adds at most two, a datagram nothing |
| `SyncMeasure.WalkWeight` | src/peer.cpp:350-386 | a walk over the list pays for the offer and for the records that may follow |
| `PeerLoops.AnswerOffer` | src/peer.cpp:176-195 | the loop over an offer yields the missing hashes in order and the written mask: the fewest bytes that have a bit for each hash, in which the bit of value 2^k of the first byte is set exactly if some hash was found behind k missing ones, and no other |
| `PeerLoops.TakeMissing` | src/peer.cpp:397-438 | the loop over an answer takes the entries whose bit is not set: the bit of value 2^i of the first byte for the entry i below 8, and none for any other, so that it is taken |
| `PeerLoops.GatherOffer` | src/peer.cpp:348-361 | the `do` loop over the list yields the walk of the model |
| `FoundMask.WrittenAgreement` | src/peer.cpp:177-195 | the two sides as written agree if and only if at most one offered hash was found and its index is below 8 |
| `FoundMask.WrittenUploadsFound` | src/peer.cpp:397-436 | they disagree exactly if some hash that was found is uploaded |
| `FoundMask.WrittenDisagrees` | src/peer.cpp:182-193 | two found hashes are enough |
| `FoundMask.OneBitPerEntryAgrees` | src/peer.cpp:177-195 | the mask that is meant agrees for every offer of every length |
| `FoundMask.MaskBits` | src/peer.cpp:187-193 | for either rule, which bits of the answer are set |
| `FoundMask.ShiftValues` | src/peer.cpp:187-193 | testing a bit is testing its place in the number, and setting it adds 1, 2, 4, up to 128, once; a bit number above 7 does nothing |
| `Entries.SelectIsNotIn` | src/peer.cpp:182-194 | with the true answer, uploader and downloader choose the same hashes in the same order |
| `Entries.BasenameIsEnd` | src/peer.cpp:33-36 | the file name is the longest end of the path without a slash |
| `Framing.RecordDelimited` | src/peer.cpp:208-217 | reading a record never asks for bytes behind its end, and stops exactly there |
| `Framing.RecordRoundTrip` | src/peer.cpp:401-427 | a record is read back as name and contents |
| `Framing.RecordLayout` | src/peer.cpp:401-427 | a record on the wire is the length of the name, the name, the length of the contents in four bytes, most significant first, and the contents |
| `Framing.OfferDelimited` | src/peer.cpp:161-172 | the same for an offer, whose first byte is its count |
| `Framing.OfferRoundTrip` | src/peer.cpp:377-386 | an offer is read back as its hashes in order |
| `Framing.OfferLayout` | src/peer.cpp:350-386 | an offer on the wire is the number of hashes and their digests in order |
| `FileStore.SaveOutcome` | src/peer.cpp:221-232 | an image lands whole at `name` if that is free, else at `name-hash` if that is free, else nowhere; nothing else changes |
| `FileStore.PathsSpelt` | src/peer.cpp:221-224 | the first path is directory, slash and name; the second one has behind it a dash and forty lower-case hexadecimal digits, two for each byte of the digest |
| `FileStore.HashedPathsApart` | src/peer.cpp:221-224 | second paths are equal only for one name and one hash |
| `FileStore.PlainIsHashed` | src/peer.cpp:221-224 | a first path is a second path of another name exactly if that name, a dash and the digits are its own name |
| `FileStore.AppendToEmpty` | src/util/fstream_utils.hpp:14-25 | a file opens for a download exactly if it can be written and has no contents |
| `Hasher.BatchesAreSlices` | src/exif_hasher.cpp:128-145 | under every interleaving, the batches are consecutive slices of one list that does not depend on the schedule |
| `Hasher.ListedExactly` | src/exif_hasher.cpp:93-105 | that list holds, for each hash that some path yields, the first path that yields it, and no other entry |
| `Hasher.ListedInOrder` | src/exif_hasher.cpp:93-105 | in the order of the paths |
| `Hasher.BatchesAreFull` | src/exif_hasher.cpp:128-145 | under every interleaving, only the last batch that is not empty can be shorter than requested |
| `Hasher.ShortBatchIsLast` | src/exif_hasher.cpp:132-135 | a shorter batch, or none, is returned only when the whole list is delivered |
| `Hasher.DoBalanced` | src/exif_hasher.cpp:105-138 | delivered plus credits is the list length rounded down to a multiple of the threshold between turns of the producer, and the list length when it is done; every step of either side keeps this |
| `Hasher.RunBounds` | src/exif_hasher.cpp:86-145 | so after every interleaving of the two sides: credits are conserved, no entry is delivered that is not listed, none is taken back, and what the list will hold in the end stays the same |
| `Hasher.CreditsBound` | src/exif_hasher.cpp:141-143 | the cursor never steps past the end of the list |
| `Hasher.RoundDownIsMultiple` | src/exif_hasher.cpp:106-118 | the rounded length is the threshold times the whole quotient |
| `Hasher.CreditsMatchExactly` | src/exif_hasher.cpp:99-118 | the credits match the list for all inputs if and only if duplicates are dropped or the threshold is 1 |
| `Hasher.DuplicatesLoseCredit` | src/exif_hasher.cpp:105-118 | otherwise two images with one hash lose an entry |
| `ExifHasherList.ExifHasher.constructor` | src/exif_hasher.hpp:39-49 | a new hasher stands for the empty queue |
| `ExifHasherList.ExifHasher.Link` | src/exif_hasher.cpp:105 | a new node on the end of the list, and no other entry changed |
| `ExifHasherList.ExifHasher.HashPath` | src/exif_hasher.cpp:93-106 | one path on the linked list is one append of the queue, and whether credits are due |
| `ExifHasherList.ExifHasher.AddCredits` | src/exif_hasher.cpp:106-111 | the locked part of a turn publishes a group of credits and nothing else |
| `ExifHasherList.ExifHasher.Finish` | src/exif_hasher.cpp:116-123 | the end of the producer publishes what is left |
| `ExifHasherList.ExifHasher.Get` | src/exif_hasher.cpp:128-145 | the batch starts at the node after the last one delivered, and the cursor ends on the last node of the batch, provided that the list holds the entries for which there are credits |
| `ExifHasherList.ExifHasher.Run` | src/exif_hasher.cpp:86-126 | the producer's thread, over the list, is the producer of the queue run to its end, for every rule |
| `ExifHasherList.TurnsAreRun` | src/exif_hasher.cpp:93-118 | the turns of the loop amount to the steps of the queue |
| `Transport.ReadFully` | src/protocol.hpp:31-40 | under every schedule of short reads, exactly the next `count` bytes, or all that are left |
| `Transport.WriteFully` | src/protocol.hpp:42-51 | under every schedule of short writes, all bytes in order |
| `Transport.ReadExactly` | src/protocol.hpp:53-55 | true exactly if the stream held that many bytes |
| `Transport.Transfer` | src/protocol.hpp:31-59 | writing and reading the same count is the identity, and leaves what follows untouched |
| `Transport.WriteFileSize` | src/protocol.hpp:84-87 | four bytes, of which the first is the most significant: their value is the size cut to 32 bits |
| `Transport.ReadFileSize` | src/protocol.hpp:77-82 | the value of the next four bytes, the first being the most significant |
| `Codec.FileSizeRoundTrip` | src/protocol.hpp:77-87 | the size comes back exactly if it is below 2^32 |
| `Codec.DigestRoundTrip` | src/exif_hash.cpp:22-46 | a hash comes back from its digest |
| `Codec.DigestBytes` | src/exif_hash.cpp:9-16 | each word of the hash is four bytes of the digest, in order, the most significant byte first |
| `Codec.HashRoundTrip` | src/exif_hash.cpp:22-46 | every 20 bytes are the digest of the hash they are read as |
| `Codec.FillPacket` | src/peer.cpp:114-123 | filling from the end writes the datagram, and nothing behind it |
| `Codec.InsertPacket` | src/peer.cpp:287-292 | reading from the end adds exactly the hashes of the datagram |
| `Codec.PacketRoundTrip` | src/peer.cpp:114-123 | a datagram is read back as the same hashes in the same order |
| `Codec.PacketBytes` | src/peer.cpp:114-123 | the digests of a batch stand in its datagram in reverse order |
| `Codec.PacketSetRoundTrip` | src/peer.cpp:287-292 | the receiver learns just the hashes that were put in |
| `Codec.BufferedHashes` | src/peer.cpp:262-292 | datagrams that share the receiver's buffer, or are cut by it, never report a hash that was in none of them |
| `ProgramOptions.Parse` | src/util/program_options.hpp:77-150 | parsing succeeds exactly if the tokens have roles; then the first tokens are the positional arguments in their order; no token is lost, and on failure none is moved. The roles are told from the tokens alone: everything behind the first `--` is positional; before it a token is an option exactly if it begins with a dash, is offered the longest run of tokens behind it that do not, and its values are as many of these as it takes |
| `ProgramOptions.RolesExactly` | src/util/program_options.hpp:85-127 | the roles that the turns of the loop give are those that the tokens have, and there are none exactly if some option is not accepted |
| `ProgramOptions.Scan` | src/util/program_options.hpp:85-127 | the scan finds what the specification of one turn after the other finds |
| `ProgramOptions.FoundIsIndices` | src/util/program_options.hpp:89-127 | that is the indices of the positional tokens, every token having exactly one role |
| `ProgramOptions.IndicesExact` | src/util/program_options.hpp:91-96 | an index is found if and only if its token is positional |
| `ProgramOptions.Compact` | src/util/program_options.hpp:136-147 | the exchanges move the tokens at increasing indices to the front, in order, and lose none |
| `Address.ExtractPort` | src/jpgsync.cpp:25-33 | succeeds exactly on digits whose value is at most 65535, and yields that value; no overflow on the way |
| `Address.ValuePlaces` | src/jpgsync.cpp:25-33 | the value of five digits by their places |
| `Address.LeadingZero` | src/jpgsync.cpp:25-33 | a zero in front does not count |
| `Address.LongValue` | src/jpgsync.cpp:25-33 | more than five digits without such a zero are more than any port |
| `Address.ParseMaster` | src/jpgsync.cpp:134-140 | yields host and port if and only if the string is a non-empty host, a colon and digits whose value is at most 65535, and then that host and that value |
| `Address.AddressRoundTrip` | src/jpgsync.cpp:341-344 | the address composed of a non-empty host, with colons or not, and a port denotes that host and port and nothing else |

## Left out

- EXIF extraction, SHA-1 and memory mapping (`src/exif_hasher.cpp:36-84`): a path yields a hash or none, as an input says.
- Sockets, name resolution and the pairing of connections (`src/peer.cpp:79-91`, `src/master.cpp`, `src/slave.cpp`): the model starts with each uploader connected to the other peer's downloader.
- Process launching, `ssh` and `rsync` command lines, `main` and the parsing of `user@host:dir`: plumbing.
- Classes for the threads of `Peer::Sync`: its threads are steps of a system of values, because the interleavings are the point; its inner loops are methods in `PeerLoops` and `Codec`, and its queue is the class `ExifHasher`. Aliasing between the threads' captured variables is not modelled.
- The C++ memory model: locked sections, atomic operations, and appends to the list are single steps. That the uploader reads list nodes while the hasher appends behind them is safe only under that assumption.
- The boundaries between the `write` calls for the fields of one message: all records of one answer are handed to the stream at once, and the stream then moves them in portions of any size.
- Errors from system calls, a peer that dies, and a file that changes while it is read: `Fatal` ends the program and nothing is said about what follows.
- SyncTheorems.Convergence: it is about runs that read their answers as they were meant and about the exit that reads the count once more, because it is false of the program as written (`MixedUp.MiddleImageLost`, `EarlyExit.OneImageLeftBehind`); `EarlyExit.WrittenConvergence` and `MixedUp.ConvergenceExactly` say exactly when the written versions converge.
- SyncRuns.DeadlockFreedom: runs in which more entries were taken from an answer than are awaited are left out, because it is false of them (`OutOfStep.WaitForEachOther`, `OutOfStep.SmallOnesWait`). `OutOfStep.InStepGoesOn` gives it from the inputs alone; where the number is wrong, whether peers hang, give up or go on depends on the lengths and contents of the surplus images, which are read as offers.
- SyncRuns.Completion: with the written mask it asks that the answers still to come be right in number, since the peers can wait for each other for ever otherwise (`OutOfStep.WaitForEachOther`).
- SyncRuns.OneBitRunsAgree: the mask is the one that is meant, not the one at the cited lines; `SufficientRunsAgree` and `MaskRuns.AnswersExactly` are about that one.
- FoundMask.OneBitPerEntryAgrees: the same; `WrittenAgreement` is about the mask at the cited lines.
- MaskRuns.EarlyExactly: for lists that do not fit in one offer, where a common image falls in an offer depends on the schedule, and the condition is enough but not necessary.
- MaskRuns.AnswersExactly: for longer lists the condition is enough but not necessary, for the same reason.
- OutOfStep.FramingExactly: for longer lists the condition is enough but not necessary, for the same reason.
- OutOfStep.WaitForEachOther: it is about the first surplus; which later offers can end so is not characterised.
- Placement.AllStored: it asks that no image be named like another one with a dash and its hash in hexadecimal behind it, since that image could take the other's second path; `RunPlaced` says where each goes in any case.
- MixedUp.ConvergenceExactly: images that look the same on the wire, and answers wrong in number, are left out; after the latter, whether a run can be complete depends on the contents of the images.
- Misread.MeantExactly: the same.
- SyncRuns.Termination: a spurious wake-up of a condition variable counts as a move of the environment, and a run may have any number of them.
- ExifHasherList.ExifHasher.Get: it asks that the credits do not exceed the list, since the code would follow a null pointer; `CreditsBound` and `CreditsMatchExactly` say when they do not.
- SyncTheorems.NeverFatal: it rests on `ValidEnv`; an empty image makes the uploader give up (`src/util/fstream_utils.hpp:27-30`), and one of 2^32 bytes or more breaks the framing. Of answers wrong in number it is false (`OutOfStep.SurplusAborts`).
- Entries.BasenameIsEnd: a name longer than 255 bytes is sent cut to its length modulo 256 (`src/peer.cpp:403`), as `SentName` says; bytes with value 0 in names are not treated.
- ProgramOptions.Parse: how many of the tokens behind an option are its values is a parameter, bounded by the number offered; the conversion of values and the defaults set afterwards are not modelled.
- FileStore.SaveOutcome: a directory is a map from paths to contents and a set of paths that cannot be written; links, permissions that change and a full disk are not modelled.
- Transport.ReadFully: `read` and `write` return no error, and counts are not cut to `ssize_t`.
- The variant that sends the update over a byte stream (`src/protocol.hpp:14-18` with `RELIABLE_UPDATE`), and the end of the update connection.
- Shifts by 32 or more: an offer has at most 26 hashes, so a bit number stays below 27.
- Logging, debug output, string utilities, file descriptors and directory listing: thin wrappers.
