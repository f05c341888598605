# A verified model of the Zynq UltraScale+ boot loader and its DMA loopback test

The repository holds a first-stage boot loader (FSBL) and a Linux program that tests a DMA proxy
driver. This project models five parts of it and proves what they are for.

1. **Secure bitstreams.** A bitstream comes in authentication blocks, each read twice: once to be
   hashed and signature-checked, once to be released, chunk by chunk, to the PCAP or the AES engine,
   each chunk only if its running hash is the one stored in the first pass. Source memory is not
   trusted: every copy may return anything. `SecureHeaderStream` gives the meaning of an encrypted
   bitstream one byte at a time; `ChunkedDecrypt` is the program's chunk-at-a-time parser, proved to
   do the same for *any* bytes, and to give the engine what one pass over the unsplit stream gives it
   exactly when no chunk is too short for where it starts; `BitstreamLayout` is the walk over blocks,
   chunks and certificates; `BitstreamAuth` the two passes; `BitstreamMeaning` puts them together, for
   any number of blocks: whatever memory answers, as long as nothing but signed blocks has a good
   signature, what is released is put together of signed blocks, and if each is the one of its place,
   the engine receives a beginning of the one-pass reading of the signed bitstream, all of it when the
   load succeeds, and finds no bad tag and no chunk cut short.
   `BitstreamStandIn` says exactly for which bitstreams the signatures alone make sure of the places,
   and that a load from memory that holds still, encrypted or in clear, succeeds exactly if every block
   is accepted.
2. **DMA rings.** `DmaRing` has the transmit and receive threads alone, for any number of buffers and
   any increment, and says exactly when a thread gets through and when its words are right; `DmaShutdown`
   interleaves them (sequentially consistent, FIFO loopback) with Ctrl-C at any moment and proves
   there is no deadlock, no wrong word, and a clean end; `DmaHang` shows that the condition used
   there, at least one transfer left for every receive buffer when the stop is acted on, is exact: if
   fewer are left, there is a run that waits for ever.
3. **QSPI reads.** `QspiRead` refines the 24-bit copy (bank registers, one or two chips, three
   wirings) to a slice of one logical flash, and says exactly for which ranges, of all 32-bit ones,
   every read begins at the byte asked for and gets every byte from the right place.
4. **DDR address map.** `DdrMap`: the builders, the searches and the register packing, in which order
   the registers map host address bits, and exactly for which memories one to one.
5. **Boot run.** `ImageHeader`, `Handoff` and `BootRun`: checksums, header checks, the parameter block
   for the ARM Trusted Firmware, the handoff table, and whole runs of the stage machine, which hand off
   exactly if nothing attempted fails and the headers allow it, and in which the first partition that
   counts for a CPU decides where that CPU starts.

`Words`, `Arith` and `Tiling` hold shared definitions and arithmetic.

Where the code loops over state in place the model is a class or a method with a loop; hardware calls
that may fail return an arbitrary outcome, and whether one has failed is on record, so that contracts
can say that the program fails exactly if one has. `dafny verify dfyconfig.toml` checks everything.

## Where the code and its intention part

These are theorems, with the exact condition under which the code does what it is meant to do.

- A stop acted on with fewer transfers left than receive buffers can hang the loopback
  (`DmaHang.StopIsSafeExactly`).
- A thread of the loopback gets through if and only if one of the number of buffers and the increment
  divides the other, or no buffer is used twice. Otherwise it ends up waiting for a buffer that was
  never started (`DmaRing.RingCloses`, `DmaRing.NeverStarted`, `DmaRing.TxThread`, `DmaRing.RxThread`).
- The words of restarted transmit buffers are right only if the increment divides the number of
  buffers: with the one transmit buffer of the shipped program and an increment of two, every transfer
  but the first carries the number before its own (`DmaRing.WordsAreNumbers`, `DmaRing.Loopback`).
- The BRC and MemMap address maps leave a hole in the address space when the memory has no bank group
  bit, and the searches run off the table when there are two; the map for other memories cannot place
  any (`DdrMap.Ddrc.CalcAddrMap`, `DdrMap.OneToOneExactly`).
- Stacked 8 MB QSPI chips are never separated by a bank boundary, so a range that straddles them is
  read wrongly, and makes without a bank register only reach the first bank (`QspiRead.Qspi.PlanIsRight`).
- Two chips side by side are read from an even address on: an odd source brings the bytes one lower,
  which are those asked for only if they are all alike (`QspiRead.Qspi.PlanIsRight`,
  `QspiRead.Qspi.OddSource`).
- The length check can be passed by a range that wraps (`QspiRead.Qspi.LengthCheck`); then not every
  read of the copy is right (`QspiRead.Qspi.PlanIsRight`).
- In the firmware parameter block a partition that names no CPU is listed as one for the last A53
  (`ImageHeader.ListedCpu`).
- A chunk that ends inside the first header, or a header cut so that the next chunk does not complete
  it, makes the parser read the rest of the header past the end of the chunk. If the engine refuses its
  tag the chunk ends there; if not, the remaining size wraps (status `Overrun`). Either way the chunk is
  never accepted (`ChunkedDecrypt.Decryptor.DecryptPlChunks`). With the shipped sizes this cannot happen
  on a signed stream (`BitstreamMeaning.EncryptedLoad`, `BitstreamMeaning.ShippedSizes`).
- A signature covers the data of a block and its certificate, but not where the block belongs, and the
  loader compares nothing with the place. So signed blocks of the same length, put at each other's places
  with their certificates, are loaded as if nothing had happened (`BitstreamStandIn.RearrangedLoad`).
  Every run delivers the bitstream that was signed, or a beginning of it, if and only if no other signed
  block has the length of a place (`BitstreamStandIn.DeliversExactly`); if only its own blocks have been
  signed, if and only if any two blocks of the same length are the same
  (`BitstreamStandIn.NoStandInMeans`).
- The block counter has 8 bits, and is used only for a last block that is not whole. Every block is
  taken to have its length if and only if there are at most 255 or the data is whole blocks
  (`BitstreamMeaning.CountServesExactly`). Otherwise the load is refused because the hash buffer is too
  small, but for 1024 blocks of 4 MB or 512 of 8 MB, where the wrong length fits
  (`BitstreamMeaning.RefusedExactly`); there the load can succeed only with a signature for bytes that are
  no block of the bitstream (`BitstreamMeaning.ShippedLoad`).
- Every CPU is given the vector location of the last partition of the image, which is that of the
  partition that decides where the CPU starts exactly if both agree on bit 23 of their attributes
  (`BootRun.VectorIsOwnExactly`).

## Model

| member | source | states |
|---|---|---|
| SecureHeaderStream.FoldIsOnePass | SDK/FSBL/xfsbl_plpartition_valid.c:802-929 | on a well-formed stream the byte-at-a-time reading gives the engine header, tag, run, header, tag, ... as one pass does, and finishes |
| SecureHeaderStream.FirstBlock | SDK/FSBL/xfsbl_plpartition_valid.c:946-1012 | the reading of a stream that begins with the first secure header: that header, then the run it announces, then the rest as a stream of its own |
| SecureHeaderStream.RunIsAnnounced | SDK/FSBL/xfsbl_plpartition_valid.c:747-784 | a header with a good tag whose length word is not zero announces a run of that many words of four bytes: 48 bytes of header and 16 of tag, then the run, then the rest as a stream of its own |
| SecureHeaderStream.FoldConcat | SDK/FSBL/xfsbl_plpartition_valid.c:946-1079 | reading two pieces in turn is reading them joined |
| SecureHeaderStream.FoldExtendsLog | SDK/FSBL/xfsbl_plpartition_valid.c:601-614 | nothing given to the engine is taken back |
| ChunkedDecrypt.ChunkingInvariance | SDK/FSBL/xfsbl_plpartition_valid.c:802-1079 | any split of a well-formed stream into chunks gets through exactly if no chunk is too short for where it starts, and then gives the engine exactly what one pass over the unsplit stream gives it; one header and tag is always long enough, save for the last chunk |
| ChunkedDecrypt.FeedRest | SDK/FSBL/xfsbl_plpartition_valid.c:802-1079 | the same, as an if and only if, from any position of the stream to any later one, with the carried position right at the cut |
| ChunkedDecrypt.PrefixOfOnePass | SDK/FSBL/xfsbl_plpartition_valid.c:341-435 | chunks that make up a beginning of the stream give the engine a beginning of the one-pass reading |
| ChunkedDecrypt.InsideStream | SDK/FSBL/xfsbl_plpartition_valid.c:858-876 | inside a well-formed stream a header that has begun still fits in what is left, and nothing is refused or finished early |
| ChunkedDecrypt.NotShort | SDK/FSBL/xfsbl_plpartition_valid.c:990-1003 | a chunk of at least one header and tag, or one that ends the stream, is never too short for the parser |
| ChunkedDecrypt.Decryptor.PushPastEnd | SDK/FSBL/xfsbl_plpartition_valid.c:956-980 | a header of which the chunk holds only a part is completed from behind the chunk: never a success, and a tag mismatch only if the engine has refused a header that begins with that part |
| ChunkedDecrypt.Decryptor.SetUpNextBlk | SDK/FSBL/xfsbl_plpartition_valid.c:747-784 | the next run is four times the engine's IV word long, with 32-bit wrap-around, and the engine is started for it |
| ChunkedDecrypt.Decryptor.TakeData | SDK/FSBL/xfsbl_plpartition_valid.c:828-876 | sends the rest of the run, or all there is; keeps the beginning of a header that the chunk cuts; the position kept is that of the byte-at-a-time reading |
| ChunkedDecrypt.Decryptor.DecryptPl | SDK/FSBL/xfsbl_plpartition_valid.c:802-929 | for any bytes, the engine is given and the position kept that the byte-at-a-time reading calls for; a bad tag stops there; a chunk cut off inside a header is never accepted; a time-out is answered exactly if the PCAP did not become idle, so never with one that works |
| ChunkedDecrypt.Decryptor.DecryptFirstChunk | SDK/FSBL/xfsbl_plpartition_valid.c:956-1012 | the same for a chunk that begins with the first header, also when the chunk is too short for it |
| ChunkedDecrypt.Decryptor.TakeCutHeader | SDK/FSBL/xfsbl_plpartition_valid.c:1024-1053 | completes a header kept from the previous chunk, pushes it, and empties the buffer |
| ChunkedDecrypt.Decryptor.DecryptCutHeader | SDK/FSBL/xfsbl_plpartition_valid.c:1018-1067 | the same for a chunk that begins with the rest of a header, also when it does not complete it |
| ChunkedDecrypt.Decryptor.DecryptPlChunks | SDK/FSBL/xfsbl_plpartition_valid.c:946-1079 | one chunk, whatever its bytes: status, engine log and carried position are those of the reference reading; a chunk that is too short is never accepted, and a tag mismatch on one means that the engine refused the header it begins, completed from behind it; a time-out exactly if the PCAP did not become idle |
| BitstreamLayout.NumChunksIsCeiling | SDK/FSBL/xfsbl_plpartition_valid.c:267-276 | the chunk count is the ceiling of the division, or 1 for an empty block, and it is the number of chunks the walk makes |
| BitstreamLayout.ChunkReadsTile | SDK/FSBL/xfsbl_plpartition_valid.c:493-523 | the chunks of a block cover it once, in order, nonempty and no longer than a chunk |
| BitstreamLayout.PassTiles | SDK/FSBL/xfsbl_plpartition_valid.c:177-223 | one pass over all blocks covers the data once, in order |
| BitstreamLayout.LoadTiles | SDK/FSBL/xfsbl_plpartition_valid.c:177-223 | a successful load reads block k after certificate k, twice the same way, and each pass covers the data exactly |
| BitstreamLayout.LastBlock | SDK/FSBL/xfsbl_plpartition_valid.c:190-204 | the block taken for the last one is the last one, and its computed length is the true remainder |
| BitstreamAuth.ReleasedIsSigned | SDK/FSBL/xfsbl_plpartition_valid.c:341-435 | unless the hash collides on the two prefixes concerned, the chunks released are the first chunks that were signed, byte for byte and cut for cut |
| BitstreamAuth.PlPartition.CopyData | SDK/FSBL/xfsbl_plpartition_valid.c:633-656 | a copy reads the range asked for; from steady memory it returns what is there, otherwise it may return anything or fail, and a failure is on record |
| BitstreamAuth.PlPartition.StoreHash | SDK/FSBL/xfsbl_plpartition_valid.c:509-520 | slot i of the hash buffer holds the running hash after chunk i, inside the buffer, and earlier slots stay |
| BitstreamAuth.PlPartition.PlSignVer | SDK/FSBL/xfsbl_plpartition_valid.c:455-585 | reads the block chunk by chunk, stores one running hash per chunk, and accepts exactly when the signature is good for the bytes read and the certificate before it; from steady memory the bytes are those held there |
| BitstreamAuth.PlPartition.ReleaseNext | SDK/FSBL/xfsbl_plpartition_valid.c:364-404 | a chunk is released only if its running hash is the one stored for it, and it is if nothing disturbs the load and memory repeats itself; the load then goes on unless the chunk is one the engine refuses |
| BitstreamAuth.PlPartition.ReleaseChunk | SDK/FSBL/xfsbl_plpartition_valid.c:406-430 | the PCAP or the engine has received exactly the chunks released so far, in order; undisturbed, a chunk gets through exactly if the engine takes what has been released, and always in clear |
| BitstreamAuth.PlPartition.ReAuthenticationBlock | SDK/FSBL/xfsbl_plpartition_valid.c:341-435 | whatever the second read returns, everything released, also before an error, is hash-matched to what was signed; undisturbed, all of it is released, or up to the chunk that the engine refuses |
| BitstreamAuth.PlPartition.PlBlockAuthentication | SDK/FSBL/xfsbl_plpartition_valid.c:260-321 | nothing is released of a block whose keys or signature fail; too small a hash buffer is refused exactly when there are more chunks than slots, and the key exactly when it is bad and there are not; undisturbed, encrypted or in clear, a block gets through exactly if number of chunks, key and signature are good and the engine takes it, and then it is what is released |
| BitstreamAuth.PlPartition.LoadBlock | SDK/FSBL/xfsbl_plpartition_valid.c:179-211 | one block with its certificate, with the 8-bit count: length taken, reads and record are those of the block's place; refused for want of hash slots only if that length needs more |
| BitstreamAuth.PlPartition.BlockShape | SDK/FSBL/xfsbl_plpartition_valid.c:190-204 | every block before the last is full, the last one is what is left |
| BitstreamAuth.PlPartition.SecPlPartition | SDK/FSBL/xfsbl_plpartition_valid.c:131-242 | a load of any number of blocks succeeds only with all blocks complete, and with exactly the prescribed reads if the block count serves; at every exit what was delivered is what was released, block by block, each vetted; a failed copy and a time-out are answered exactly if there was one; undisturbed, encrypted or in clear, it releases exactly the blocks before the first one refused, unless the engine refuses a chunk |
| BitstreamAuth.PlPartition.TakenIsRight | SDK/FSBL/xfsbl_plpartition_valid.c:183-204 | up to 255 blocks, and for any number of whole blocks, every block is taken to have the length it has |
| BitstreamMeaning.ShippedSizes | SDK/FSBL/xfsbl_bs.h:76-83 | of the block sizes a header can announce the hash buffer admits 4 and 8 MB only, and both are cut into chunks the parser can take |
| BitstreamMeaning.BlockReleases | SDK/FSBL/xfsbl_plpartition_valid.c:341-435 | if the block accepted is the one of its place, what it released is the beginning of that block, cut into usable chunks |
| BitstreamMeaning.BlocksRelease | SDK/FSBL/xfsbl_plpartition_valid.c:177-223 | if the blocks accepted are those of their places, what the first m released together is a prefix of the signed bitstream |
| BitstreamMeaning.EncryptedLoad | SDK/FSBL/xfsbl_plpartition_valid.c:131-242 | if the blocks accepted are those of their places, then for a well-formed encrypted bitstream the engine receives a beginning of the one-pass reading, all of it on success; no tag mismatch and no overrun, whatever memory answers besides |
| BitstreamMeaning.ClearLoad | SDK/FSBL/xfsbl_plpartition_valid.c:406-420 | likewise for one in clear the PCAP receives a beginning of the signed bytes, all of them on success |
| BitstreamMeaning.LoadAssembles | SDK/FSBL/xfsbl_plpartition_valid.c:509-533 | with nothing known of a signature but that it is for some signed block: each block releases a beginning of a signed block as long as its place, and together they are a beginning of such blocks, joined, all of them on success |
| BitstreamMeaning.PlacedByNoStandIn | SDK/FSBL/xfsbl_plpartition_valid.c:177-223 | if no other signed block fits the place, the block accepted there is the one of the bitstream |
| BitstreamMeaning.SecureLoad | SDK/FSBL/xfsbl_plpartition_valid.c:131-242 | on every run of the load, of any number of blocks: if signatures were accepted for signed blocks only, it assembles signed blocks; if moreover none can stand in for another, or none did, the engine or the PCAP has received what it should of the bitstream, all of it on success |
| BitstreamMeaning.CountServesExactly | SDK/FSBL/xfsbl_plpartition_valid.c:177-204 | at the shipped sizes every block is taken to have its length if and only if there are at most 255 or the data is whole blocks |
| BitstreamMeaning.RefusedExactly | SDK/FSBL/xfsbl_plpartition_valid.c:267-282 | otherwise, and only then, some block is taken to need more hash slots than there are, but for 1024 blocks of 4 MB or 512 of 8 MB |
| BitstreamMeaning.ShippedLoad | SDK/FSBL/xfsbl_plpartition_valid.c:131-242 | so the load never succeeds if the count does not serve (at those two numbers: if only blocks of the bitstream have been signed), and is never refused for want of hash slots, and reads what it should, if it serves |
| BitstreamStandIn.DeliversExactly | SDK/FSBL/xfsbl_plpartition_valid.c:177-223 | all runs that memory may lead to deliver the bitstream, or a beginning of it, if and only if no other signed block has the length of a place the load can come to |
| BitstreamStandIn.NoStandInDelivers | SDK/FSBL/xfsbl_plpartition_valid.c:177-223 | the safe half: without a stand-in every run delivers |
| BitstreamStandIn.StandInMisleads | SDK/FSBL/xfsbl_plpartition_valid.c:509-533 | the other half: with one there is a run, of blocks each signed, that does not |
| BitstreamStandIn.NoStandInMeans | SDK/FSBL/xfsbl_plpartition_valid.c:177-223 | if just the blocks of the bitstream have been signed, there is no stand-in if and only if any two blocks of the same length are the same |
| BitstreamStandIn.SteadyLoad | SDK/FSBL/xfsbl_plpartition_valid.c:131-242 | from memory that holds still, in clear, with a PCAP that works: the load stops at the first block that is not accepted, with a refusal, succeeds if there is none, and the PCAP has received exactly the blocks before |
| BitstreamStandIn.EncryptedSteadyLoad | SDK/FSBL/xfsbl_plpartition_valid.c:131-242 | the same for a well-formed encrypted bitstream: it succeeds exactly if every block is accepted, and then the engine has received exactly what one pass over the stream gives it; otherwise a beginning of that, and a refusal |
| BitstreamStandIn.ChunksAreTaken | SDK/FSBL/xfsbl_plpartition_valid.c:946-1079 | cut into blocks and chunks the way the load does it, a well-formed stream is taken by the engine to the end |
| BitstreamStandIn.ImageIsLaidOut | SDK/FSBL/xfsbl_plpartition_valid.c:177-223 | there is such memory for any data and certificates |
| BitstreamStandIn.RearrangedLoad | SDK/FSBL/xfsbl_plpartition_valid.c:131-242 | accepted blocks in any order that keeps the lengths, each with its certificate, are loaded with success; what the PCAP receives is the bitstream exactly if every block is the same as the one whose place it has |
| BitstreamStandIn.RearrangedBlock | SDK/FSBL/xfsbl_plpartition_valid.c:190-204 | block k of a rearranged bitstream is the block put there |
| DmaRing.Channel.Start | LinuxApplication/dma-proxy_test/dma-proxy-test.c:135-195 | only an idle buffer is started |
| DmaRing.Channel.Finish | LinuxApplication/dma-proxy_test/dma-proxy-test.c:154-238 | returns exactly if the buffer has a transfer in progress, which is the oldest; a receive buffer then holds the next word |
| DmaRing.NextSlot | LinuxApplication/dma-proxy_test/dma-proxy-test.c:200-204 | the step to the next buffer is the step to the next transfer's ring slot, or out of the last one used |
| DmaRing.NextAwaited | LinuxApplication/dma-proxy_test/dma-proxy-test.c:200-204 | as long as the transfers fit the ring it leads to the buffer that must be waited for |
| DmaRing.NextIsIdle | LinuxApplication/dma-proxy_test/dma-proxy-test.c:180-197 | in a window that is not full the next slot is not in use |
| DmaRing.RingCloses | LinuxApplication/dma-proxy_test/dma-proxy-test.c:200-204 | the step from the last buffer used leads to the first if and only if one of the number of buffers and the increment divides the other |
| DmaRing.NeverStarted | LinuxApplication/dma-proxy_test/dma-proxy-test.c:122-205 | if not, it leads to a buffer that no start, of however many, has named |
| DmaRing.WordsAreNumbers | LinuxApplication/dma-proxy_test/dma-proxy-test.c:126-191 | the words written for m transfers are 0 to m - 1 if and only if the increment divides the number of buffers or no buffer is used twice |
| DmaRing.StartAll | LinuxApplication/dma-proxy_test/dma-proxy-test.c:122-143 | the first loop starts every used buffer, or as many as there are transfers |
| DmaRing.TxThread | LinuxApplication/dma-proxy_test/dma-proxy-test.c:115-206 | for any number of buffers and any increment: the thread gets through if and only if the transfers fit the ring; then exactly max(n, 1) are started and finished, in ring order, and with verification carry 0, 1, 2, ... if and only if the increment divides the number of buffers or none is used twice; if not, it has finished one per buffer used and waits for one never started |
| DmaRing.Restart | LinuxApplication/dma-proxy_test/dma-proxy-test.c:184-197 | a buffer started again keeps the window, and with verification carries the next word of the sequence the program writes |
| DmaRing.RxThread | LinuxApplication/dma-proxy_test/dma-proxy-test.c:208-293 | the same for the receive thread; it reports exactly the finished transfers whose word is not their number |
| DmaRing.Loopback | LinuxApplication/dma-proxy_test/dma-proxy-test.c:187-259 | any transmit ring into any receive ring: it ends if and only if the transfers fit both, and then is without a mismatch if and only if the transmit increment divides its number of buffers or none is used twice |
| DmaShutdown.NextKeeps | LinuxApplication/dma-proxy_test/dma-proxy-test.c:115-293 | every step of either thread, the channel or the signal handler keeps the invariant: the window, its slots in order, the words 0, 1, 2, ..., both counters below the target |
| DmaShutdown.TargetKeepsRx | LinuxApplication/dma-proxy_test/dma-proxy-test.c:174-177 | rewriting the target in time leaves the receive window right for the new target |
| DmaShutdown.InvCalls | LinuxApplication/dma-proxy_test/dma-proxy-test.c:115-293 | START finds an idle buffer and FINISH a started one, in both threads |
| DmaShutdown.InvLive | LinuxApplication/dma-proxy_test/dma-proxy-test.c:149-292 | no deadlock: somebody can work, or both threads have left with nothing in progress |
| DmaShutdown.NextWorks | LinuxApplication/dma-proxy_test/dma-proxy-test.c:149-292 | every step leaves less to do |
| DmaShutdown.TargetIsRewritten | LinuxApplication/dma-proxy_test/dma-proxy-test.c:174-177 | once acted on, a stop fixes the target for good: the transfers finished then and one more per receive buffer |
| DmaShutdown.GracefulShutdown | LinuxApplication/dma-proxy_test/dma-proxy-test.c:89-293 | every interleaving with the stop seen in time is finite, sound and without mismatch, and can only come to rest drained, both counters at the target |
| DmaHang.HungForever | LinuxApplication/dma-proxy_test/dma-proxy-test.c:238 | a receive thread that waits on a buffer nobody will fill waits for ever |
| DmaHang.WaitFor | LinuxApplication/dma-proxy_test/dma-proxy-test.c:149-292 | for every k below the target there is a run in which both threads wait for transfer k |
| DmaHang.LateStop | LinuxApplication/dma-proxy_test/dma-proxy-test.c:174-177 | a stop with too few transfers left is reachable after the receive thread has let a buffer go |
| DmaHang.DoomedHangs | LinuxApplication/dma-proxy_test/dma-proxy-test.c:236-292 | from there a run leads to the receive thread waiting for that buffer |
| DmaHang.StopIsSafeExactly | LinuxApplication/dma-proxy_test/dma-proxy-test.c:168-177 | a stop acted on after c transfers can never hang the program if and only if at least one transfer is left for every receive buffer |
| QspiRead.BankMask | SDK/FSBL/xfsbl_qspi.c:597-606 | as numbers, masking gives the beginning of the bank, also with the doubled mask, which wraps |
| QspiRead.CommandsDecode | SDK/FSBL/xfsbl_qspi.c:680-684 | the address bytes of a read command say the address within its bank, or all of it |
| QspiRead.Qspi.GetQspiAddr | SDK/FSBL/xfsbl_qspi.c:343-400 | selects the chips that hold the address and translates it for them |
| QspiRead.Qspi.SendBankSelect | SDK/FSBL/xfsbl_qspi.c:416-552 | on success the selected chips' registers hold the bank, for the makes that have one; it fails exactly if a command does |
| QspiRead.Qspi.TransferBytes | SDK/FSBL/xfsbl_qspi.c:619-667 | a transfer is nonempty, no longer than what remains or the DMA limit |
| QspiRead.Qspi.TransferInBank | SDK/FSBL/xfsbl_qspi.c:660-667 | and stays inside one bank of each chip it reads |
| QspiRead.Qspi.BankIsRight | SDK/FSBL/xfsbl_qspi.c:646-657 | the bank chosen completes the address, unless another than the first is needed and cannot be chosen |
| QspiRead.Qspi.PlanIsRight | SDK/FSBL/xfsbl_qspi.c:617-758 | for every 32-bit range, also one that wraps: all reads of a copy begin at the byte asked for, in one chip and bank with the register right, if and only if the range is in the flash and readable, which for two chips side by side includes an even source |
| QspiRead.Qspi.MakesAndBanks | SDK/FSBL/xfsbl_qspi.c:425-484 | of a range in the flash that begins on a pair of bytes and does not straddle two 8 MB chips, Micron, Macronix and Spansion flashes get every read right, those of other makes exactly if all of it is in the first 16 MB of each chip |
| QspiRead.Qspi.PlanTiles | SDK/FSBL/xfsbl_qspi.c:617-758 | the reads asked for by a copy cover the range itself once, in order, each nonempty |
| QspiRead.Qspi.OddSource | SDK/FSBL/xfsbl_qspi.c:379-387 | from two chips side by side an odd source brings the right bytes if and only if they are all like the one before |
| QspiRead.Qspi.RightIsLogical | SDK/FSBL/xfsbl_qspi.c:343-400 | what the chips return for a read that is right is the logical flash, in all three wirings |
| QspiRead.Qspi.LengthCheck | SDK/FSBL/xfsbl_qspi.c:587-594 | the ranges the 32-bit length check lets through wrongly are exactly those that wrap to inside the flash |
| QspiRead.Qspi.SelectFor | SDK/FSBL/xfsbl_qspi.c:619-667 | chip and bank are selected for the address and the transfer is cut as the plan says |
| QspiRead.Qspi.ReadInBank | SDK/FSBL/xfsbl_qspi.c:617-758 | one turn makes the planned read, puts the logical bytes at the destination, from the pair the source is in on, and touches nothing else |
| QspiRead.Qspi.Copy24 | SDK/FSBL/xfsbl_qspi.c:572-777 | for every 32-bit range: length error exactly when its end, as a 32-bit sum, is outside the flash, before anything is touched; a read error exactly if a command failed; otherwise the planned reads, and for a range in the flash and in reach, for Micron, Macronix and Spansion every one that does not straddle two 8 MB chips, the destination equals the logical flash slice, one byte low for an odd source of two chips side by side, also for what was brought before an error |
| QspiRead.Qspi.WholeIsRight | SDK/FSBL/xfsbl_qspi.c:973-1020 | a 4-byte read is right exactly when it is in the flash, does not straddle the two chips of a stack, and of two chips side by side begins at an even address |
| QspiRead.Qspi.Copy32 | SDK/FSBL/xfsbl_qspi.c:945-1059 | for every 32-bit range: the same length error, a read error exactly if a command failed, and the logical flash slice, one byte low for an odd source, for every range in the flash that does not straddle, whatever the make |
| QspiRead.Qspi.CopiesAgree | SDK/FSBL/xfsbl_qspi.c:945-1059 | both forms take the same ranges, and bring the same bytes of those good for both |
| DdrMap.PosThenBit | SDK/FSBL/xfsbl_ddr_init.c:769-1054 | every bit laid down has its own position, inside the table |
| DdrMap.BitThenPos | SDK/FSBL/xfsbl_ddr_init.c:769-1054 | and every position up to the number of bits holds one bit laid down: the layout is a permutation |
| DdrMap.Define | SDK/FSBL/xfsbl_ddr_init.c:777-780 | one builder loop writes consecutive bits at consecutive positions and nothing else |
| DdrMap.CalcDdr4HifAddr | SDK/FSBL/xfsbl_ddr_init.c:769-804 | the default builder writes exactly its layout |
| DdrMap.CalcHifAddrBrcMap | SDK/FSBL/xfsbl_ddr_init.c:928-965 | the bank-row-column builder writes exactly its layout |
| DdrMap.CalcHifAddrMemMap | SDK/FSBL/xfsbl_ddr_init.c:977-1013 | the address-mapping builder writes exactly its layout |
| DdrMap.CalcHifAddr | SDK/FSBL/xfsbl_ddr_init.c:1025-1054 | the builder for other memories writes exactly its layout |
| DdrMap.Search | SDK/FSBL/xfsbl_ddr_init.c:1077-1079 | a search ends at the one position of its bit, and runs off the table exactly if the bit was not laid down |
| DdrMap.FieldFits | SDK/FSBL/xfsbl_ddr_init.c:1081-1187 | a field used is the position less its bias, without wrapping, and never the code for "unused" |
| DdrMap.OrIsPack | SDK/FSBL/xfsbl_ddr_init.c:1269-1371 | as numbers, masking, shifting and ORing fields that fit five bits is putting them side by side |
| DdrMap.OrIsPackNarrow | SDK/FSBL/xfsbl_ddr_init.c:1292-1372 | the same for the mask and fields of four bits |
| DdrMap.LanesOfPack | SDK/FSBL/xfsbl_ddr_init.c:1269-1372 | fields put side by side can be read back |
| DdrMap.OneToOneExactly | SDK/FSBL/xfsbl_ddr_init.c:1203-1377 | decoding the registers gives every memory bit its own host bit, the lowest ones without a hole, if and only if there is one rank and the number of bank group bits the map is made for |
| DdrMap.OrderedAs | SDK/FSBL/xfsbl_ddr_init.c:769-1054 | what the registers say about the order, in terms of the three settings: the bits of a coordinate ascend, columns and bank groups are below banks and rows, banks below rows save in the bank-row-column map where they are above; in the default DDR4 map columns are below bank groups, in the two fixed ones bank group bit 0 is host bit 3 |
| DdrMap.MadeForIsOneToOne | SDK/FSBL/xfsbl_ddr_init.c:1203-1377 | the one-to-one half: distinct, onto 0..N-1, unused fields marked unused |
| DdrMap.Hole | SDK/FSBL/xfsbl_ddr_init.c:934-941 | without a bank group bit the fixed maps leave host bit 3 without a meaning |
| DdrMap.Ddrc.CalcBankAddr | SDK/FSBL/xfsbl_ddr_init.c:1066-1087 | the bank fields are position less bias, or the unused code |
| DdrMap.Ddrc.CalcBgAddr | SDK/FSBL/xfsbl_ddr_init.c:1099-1124 | the bank group fields too, and the search ends exactly if all were laid down |
| DdrMap.Ddrc.CalcColAddr | SDK/FSBL/xfsbl_ddr_init.c:1136-1156 | the column fields too |
| DdrMap.Ddrc.CalcRowAddr | SDK/FSBL/xfsbl_ddr_init.c:1168-1192 | the row fields too |
| DdrMap.Ddrc.PackRegisters | SDK/FSBL/xfsbl_ddr_init.c:1265-1371 | every field can be read back from its register and byte, and every byte of the twelve registers is the one written out; chip select unmapped, rows 2 to 10 mapped singly |
| DdrMap.Ddrc.UsualRegisters | SDK/FSBL/xfsbl_ddr_init.c:1265-1377 | the twelve register values for a DDR4 memory with 10 columns, 15 rows, 4 banks and 4 bank groups |
| DdrMap.Ddrc.CalcAddrMap | SDK/FSBL/xfsbl_ddr_init.c:1203-1377 | gets through exactly with no more bank group bits than the map can take (2, 1 or 0), is then one to one exactly for one rank and, in the fixed maps, one bank group bit, and puts the coordinates in the order of the map |
| ImageHeader.ValidateChecksum | SDK/FSBL/xfsbl_image_header.c:172-219 | succeeds exactly if there are two words or more and the last is the complement of the wrapping sum of the others |
| ImageHeader.ComplementOfSum | SDK/FSBL/xfsbl_image_header.c:172-219 | which is to say that all of them sum to all ones |
| ImageHeader.OneWordChanged | SDK/FSBL/xfsbl_image_header.c:172-219 | changing any single word of an accepted header makes it rejected |
| ImageHeader.AcceptedHeader | SDK/FSBL/xfsbl_image_header.c:607-900 | exactly what it takes for a partition header to get through |
| ImageHeader.PassedOver | SDK/FSBL/xfsbl_partition_load.c:281-318 | a header is passed over exactly if its checksum is right and it names another owner, or no A53 when only the application CPUs were reset |
| ImageHeader.ValidCpu | SDK/FSBL/xfsbl_image_header.c:819-825 | a partition that gets through is for one of the eight CPUs |
| ImageHeader.FieldsReadBack | SDK/FSBL/xfsbl_image_header.c:70-118 | every attribute word put together from its fields reads them back, and the device names stand for 2 and 3 |
| ImageHeader.CpuNames | SDK/FSBL/xfsbl_image_header.h:174-182 | and the CPU names for 0 to 8 |
| ImageHeader.FlagsDecode | SDK/FSBL/xfsbl_image_header.c:916-946 | execution state, endianness, security and exception level can be read back from the flags |
| ImageHeader.CpuDecodes | SDK/FSBL/xfsbl_image_header.c:933-946 | so can the CPU, exactly when the partition names an A53 |
| ImageHeader.WhoIsListed | SDK/FSBL/xfsbl_image_header.c:439-456 | a partition qualifies for the firmware's list from the third on, if it has an execution address and is for an A53, by name or because the loader runs on one |
| ImageHeader.ListedCpu | SDK/FSBL/xfsbl_image_header.c:422-449 | a listed partition's flags name the CPU it runs on exactly when it names one itself or the loader runs on the last A53 |
| ImageHeader.Reader.SetATFHandoffParameters | SDK/FSBL/xfsbl_image_header.c:916-966 | one entry is written, the count follows, the magic comes with the first |
| ImageHeader.Reader.ListPartition | SDK/FSBL/xfsbl_image_header.c:434-449 | a partition is appended if it qualifies and there is room, and nothing else changes |
| ImageHeader.Reader.ReadHeaders | SDK/FSBL/xfsbl_image_header.c:383-470 | as many headers as the table says, those copied, from the chain of addresses that begins where the table says; it fails exactly if a copy does |
| ImageHeader.ChainedInWords | SDK/FSBL/xfsbl_image_header.c:383-470 | an address in the chain is the image offset plus four times the word offset read, with 32-bit wrap-around |
| ImageHeader.Reader.ReadImageHeader | SDK/FSBL/xfsbl_image_header.c:332-480 | succeeds exactly if no copy fails and the table has a right checksum, no secondary device and 2 to 32 partitions; then there are as many headers as the table says, those copied, each from where the one before says, the first from where the table says, and the block holds exactly the first eight that qualify, in image order |
| Handoff.NeverOverflows | SDK/FSBL/xfsbl_main.h:104 | a table of distinct valid CPUs has at most eight entries, of ten |
| Handoff.TableSound | SDK/FSBL/xfsbl_partition_load.c:340-365 | after any loads the entries are for pairwise distinct valid CPUs |
| Handoff.TableHasFirsts | SDK/FSBL/xfsbl_partition_load.c:864-892 | a CPU is in the table exactly if some loaded partition counts for it, with the settings and address of the first |
| Handoff.FirstIsFirst | SDK/FSBL/xfsbl_partition_load.c:1622-1640 | what "first" means: it counts for the CPU and none before it does |
| Handoff.CountsExactly | SDK/FSBL/xfsbl_partition_load.c:1622-1640 | which partitions count and for which CPU, in the numbers of the attribute word |
| Handoff.VectorLocationIsBit | SDK/FSBL/xfsbl_handoff.c:929-932 | the vector location is 1 if bit 23 of the attributes is set and 0 if not |
| Handoff.ReleasedOnce | SDK/FSBL/xfsbl_handoff.c:863-1010 | the release loop gives every other CPU of the table its own address and the one vector location and releases it, once, and touches no CPU besides |
| BootRun.Fsbl.CheckHandoffCpu | SDK/FSBL/xfsbl_partition_load.c:340-365 | tells exactly whether a CPU has no entry yet |
| BootRun.Fsbl.AddHandoff | SDK/FSBL/xfsbl_partition_load.c:1628-1639 | appends one entry for a new CPU, never past the array, and keeps the table otherwise |
| BootRun.Fsbl.PartitionCopy | SDK/FSBL/xfsbl_partition_load.c:864-892 | execution in place needs only the entry and does not fail; other copies leave the table alone |
| BootRun.Fsbl.PartitionValidation | SDK/FSBL/xfsbl_partition_load.c:1112-1644 | on success the entry is made unless the partition is for the logic or the PMU; on failure none is |
| BootRun.Fsbl.PartitionLoad | SDK/FSBL/xfsbl_partition_load.c:155-258 | a successful load updates the table as the record function says, whichever way it went; a partition passed over is a success, a header that is neither accepted nor passed over stops it with the verdict on it, and otherwise only a failing copy or validation does |
| BootRun.Fsbl.Start | SDK/FSBL/xfsbl_handoff.c:886-947 | power-up, address with vector location, and release in that order, for supported CPUs only; it fails exactly if the CPU is not supported or a call fails |
| BootRun.Fsbl.StartNext | SDK/FSBL/xfsbl_handoff.c:863-1010 | one turn of the loop; a failure leaves a beginning of what is due, and has a cause: a failed call, a CPU not supported or a change of execution state |
| BootRun.Fsbl.StartAll | SDK/FSBL/xfsbl_handoff.c:863-1010 | the whole loop: every entry dealt with, and what is known of the running CPU is its entry |
| BootRun.Fsbl.Handoff | SDK/FSBL/xfsbl_handoff.c:727-1074 | an error-free handoff is exactly the releases due, with the vector location of the partition it is called for, and then the exit due; it succeeds exactly if no call fails, every other CPU of the table is supported and the running one goes on in the execution state it is in |
| BootRun.Fsbl.BootDeviceInitAndValidate | SDK/FSBL/xfsbl_initialization.c:399-438 | succeeds exactly if no call or copy fails and the table is right; the headers the loader has are then those that were copied, as many as the table says, from the chain that begins where it says |
| BootRun.Fsbl.LoadStage | SDK/FSBL/xfsbl_main.c:187-260 | one turn of stage 3: a load that succeeds leaves the table of partitions 1 to k and one more event; one that fails leaves its failure as the last event; it succeeds exactly if no call fails and the header is accepted or passed over |
| BootRun.Fsbl.Run | SDK/FSBL/xfsbl_main.c:106-340 | every run ends, and with a handoff exactly if no call or copy fails, the image header table is right, every partition after the first is accepted or passed over, and every CPU of the table can be started; a good one loads partitions 1 to n-1 of the table in order once, starts the CPUs and leaves; in a failed one nothing follows the failure but the lockdown, and no CPU starts before all loads succeeded |
| BootRun.Fsbl.CanBootExactly | SDK/FSBL/xfsbl_main.c:106-340 | the same in terms of the headers: for every CPU the first partition that counts for it is for a CPU that is fitted, or for the running one in the execution state it is in |
| BootRun.FirstPartitionDecides | SDK/FSBL/xfsbl_main.c:106-340 | in a good run each CPU is released once at the address of the first partition that counts for it, with the vector location of the last partition, or not at all if there is none, and the loader leaves to its own CPU's |
| BootRun.VectorIsOwnExactly | SDK/FSBL/xfsbl_handoff.c:757-932 | a CPU released gets the vector location its own first partition asks for exactly if that and the last partition agree on bit 23 |

## Left out

- Register accesses, cache and MMU operations, delays, power-up sequences, printing, watchdog, boot hooks: only their outcome is modelled, as an arbitrary success or failure.
- The hash, the RSA checks and the AES engine are arbitrary functions; the sizes of the secure header (48 bytes) and the GCM tag (16 bytes) come from the vendor's secure library, which is not part of this model.
- DMA errors and time-outs: FINISH on a buffer without a transfer never returns in the model; the driver gives up after three seconds and the receive thread ends the program.
- A loopback that loses data when no receive buffer is posted: the channel in the model waits for one.
- DmaRing.Loopback: runs the receive thread after the transmit thread; how the threads interleave is the subject of `DmaShutdown`, with the shipped single transmit buffer.
- More than one transmit buffer together with a stop: the rings of any size are modelled without a stop, the stop with the shipped single transmit buffer.
- BitstreamStandIn.RearrangedLoad: is about a bitstream in clear; of an encrypted one, what a successful load assembles is stated by `BitstreamMeaning.LoadAssembles`, not what the engine makes of exchanged blocks.
- BootRun.Fsbl.SetUpProtection: has no event of its own in a run; that the calls are made is seen only from their failures.
- BootRun.Fsbl.BootDeviceInitAndValidate: takes the search for the image and the boot header checks as one call that may fail, and the offsets found as given.
- The vector location has an effect on 32-bit CPUs only (SDK/FSBL/xfsbl_handoff.c:929-932 passes it for all); the events record what is passed.
- The key-source checks at the start of XFsbl_SecPlPartition (SDK/FSBL/xfsbl_plpartition_valid.c:150-169).
- Boards without DDR, where the copy of a cut header goes through the flash driver (SDK/FSBL/xfsbl_plpartition_valid.c:868-874, 1024-1026) although its source is the chunk buffer.
- BitstreamAuth.PlPartition.CopyData: does not model the failure of the copies of a cut header, whose status the program ignores.
- ChunkedDecrypt.Decryptor.DecryptPlChunks: says nothing about the data after an overrun, where the program goes on with a wrapped size.
- QspiRead.Qspi.PolledTransfer: the transfer of an odd number of bytes from two chips side by side is taken to deliver them alternately, as for an even number.
- The QSPI start-up: flash identification, read command and dummy cycles; the 32-bit start-up fixes the flash size whatever is fitted.
- DdrMap.Ddrc.CalcAddrMap: does not model the video mapping nor bus widths of 32 bits or less, which shift the table so that the column bias wraps.
- DDR timing, mode registers, PHY set-up and training.
- The address ranges of a board (SDK/FSBL/xfsbl_image_header.c:483-591) are a parameter of the header checks, and so is the set of CPUs that are fitted; mandatory encryption by eFUSE is not modelled.
- The secondary boot device, the header copy from OCM when the boot image is authenticated, and JTAG boot runs, which go straight to the handoff stage; the multiboot fallback after a lockdown.
- Early handoff: excluded in the shipped configuration (SDK/FSBL/xfsbl_config.h:139).
- The hand-over to the PMU firmware, TCM ECC initialisation and range checks, and the vector copying of a loader that runs on an R5.
