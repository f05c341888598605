/**
 Which blocks of a bitstream the loader can tell from one another. A signature covers the data of a
 block and its certificate, but not where the block belongs.
 */
module BitstreamStandIn {
  import opened Arith
  import opened Words
  import opened SecureHeaderStream
  import opened ChunkedDecrypt
  import opened BitstreamLayout
  import opened Tiling
  import opened BitstreamAuth
  import opened BitstreamMeaning

  // ---- Every run, whatever memory answers ----

  /** The records of a load that any memory may lead to, if nothing but signed blocks has a good
      signature. */
  ghost predicate Possible(p: PlPartition, n: nat, signed: set<seq<byte>>, bs: seq<BlockRun>) {
    |bs| <= n && p.Recorded(bs) && Attested(p, signed, bs)
  }

  /** What has been released is a beginning of `s`, and all of it once all blocks are complete. */
  ghost predicate IsDelivered(p: PlPartition, n: nat, s: seq<byte>, bs: seq<BlockRun>) {
    var got := Join(AllReleased(bs));
    got <= s && (|bs| == n && (forall k :: 0 <= k < n ==> p.Complete(bs[k])) ==> got == s)
  }

  /** The first `m` blocks of `s`. */
  ghost function FirstBlocks(p: PlPartition, s: seq<byte>, m: nat): seq<seq<byte>>
    requires |s| == p.acOffset - p.startAddress
  {
    seq(m, k requires 0 <= k < m => BlockOf(p, s, k))
  }

  lemma {:induction false} FirstBlocksJoin(p: PlPartition, n: nat, s: seq<byte>, m: nat)
    requires p.WellPlaced(n) && |s| == p.acOffset - p.startAddress && m <= n
    ensures 0 <= EndOf(p, m) <= |s| && Join(FirstBlocks(p, s, m)) == s[..EndOf(p, m)]
    ensures m == n ==> EndOf(p, m) == |s|
    decreases m
  {
    if m == 0 {
      EndOfBlocks(p, n, 0);
    } else {
      FirstBlocksJoin(p, n, s, m - 1);
      BlockLies(p, n, s, m - 1);
      JoinNext(FirstBlocks(p, s, m - 1), BlockOf(p, s, m - 1));
      hide BlockOf, EndOf, Join;
      assert FirstBlocks(p, s, m) == FirstBlocks(p, s, m - 1) + [BlockOf(p, s, m - 1)];
    }
  }

  /** Signed blocks that are at their places are a beginning of `s`. */
  lemma PlacedIsBeginning(p: PlPartition, n: nat, s: seq<byte>, bs: seq<BlockRun>)
    requires p.WellPlaced(n) && |s| == p.acOffset - p.startAddress && |bs| <= n
    requires forall k :: 0 <= k < |bs| - 1 ==> bs[k].signed != []
    requires forall k :: 0 <= k < |bs| && bs[k].signed != [] ==> Join(bs[k].signed) == BlockOf(p, s, k)
    ensures Join(SignedOf(bs)) <= s
    ensures |bs| == n && (n > 0 ==> bs[n - 1].signed != []) ==> Join(SignedOf(bs)) == s
  {
    FirstBlocksJoin(p, n, s, |bs|);
    if bs == [] || bs[|bs| - 1].signed != [] {
      hide BlockOf, Join, EndOf;
      assert SignedOf(bs) == FirstBlocks(p, s, |bs|);
    } else {
      var m := |bs| - 1;
      FirstBlocksJoin(p, n, s, m);
      JoinNext(FirstBlocks(p, s, m), []);
      assert Join(bs[m].signed) == [];
      hide BlockOf, Join, EndOf;
      assert SignedOf(bs) == FirstBlocks(p, s, m) + [[]];
    }
  }

  /** Without a stand-in every run delivers. */
  lemma NoStandInDelivers(p: PlPartition, n: nat, s: seq<byte>, signed: set<seq<byte>>, bs: seq<BlockRun>)
    requires p.WellPlaced(n) && p.chunkSize > 0 && |s| == p.acOffset - p.startAddress
    requires NoStandIn(p, n, s, signed) && Possible(p, n, signed, bs)
    ensures IsDelivered(p, n, s, bs)
  {
    assert p.Recorded(bs) && Attested(p, signed, bs) && forall k :: 0 <= k < |bs| - 1 ==> p.Complete(bs[k]);
    forall k | 0 <= k < |bs| ensures bs[k].signed != [] ==> Join(bs[k].signed) == BlockOf(p, s, k) {
      PlacedByNoStandIn(p, n, s, signed, bs, k);
      hide BlockOf, NoCollision, Join;
    }
    hide BlockOf, NoStandIn, Possible, Attested, SignedOf, AllReleased, Join;
    BlocksAssemble(p, signed, bs);
    PlacedIsBeginning(p, n, s, bs);
  }

  /** Key and signature are good for these data. */
  ghost predicate Certifies(p: PlPartition, cert: seq<byte>, data: seq<byte>) {
    && |cert| == AC_SIZE && p.crypto.spkOk(cert)
    && p.crypto.sigOk(p.crypto.hash(data + cert[..AC_SIZE - SIG_SIZE]), cert)
  }

  /** The record of a block that is read and released without a change. */
  ghost function RunOf(p: PlPartition, data: seq<byte>, cert: seq<byte>): BlockRun
    requires p.chunkSize > 0
  {
    BlockRun(cert, Cut(data, p.chunkSize), Cut(data, p.chunkSize))
  }

  lemma RunOfIs(p: PlPartition, signed: set<seq<byte>>, k: nat, data: seq<byte>, cert: seq<byte>)
    requires p.chunkSize > 0 && p.blockSize < U32 && |data| == p.TakenLen(k) && data in signed
    requires Certifies(p, cert, data) && NumChunks(|data|, p.chunkSize) <= p.noOfHashs
    ensures var b := RunOf(p, data, cert);
            p.BlockAsPlaced(b, k) && p.Complete(b) && AttestedBlock(p, signed, b) && Join(b.signed) == data
  {
    CutIs(data, p.BlockStart(k), p.chunkSize);
    hide Cut;
    var b := RunOf(p, data, cert);
    assert b.signed[..|b.released|] == b.released;
    forall i | 0 <= i < |b.released| ensures MatchedAt(p.crypto, b.signed, b.released, i) {
    }
  }

  /** The blocks of `s` before place `k`, and then `x`. */
  ghost function Substituted(p: PlPartition, s: seq<byte>, k: nat, x: seq<byte>): seq<seq<byte>>
    requires |s| == p.acOffset - p.startAddress
  {
    FirstBlocks(p, s, k) + [x]
  }

  ghost function RunsOf(p: PlPartition, xs: seq<seq<byte>>, certOf: seq<byte> -> seq<byte>): seq<BlockRun>
    requires p.chunkSize > 0
  {
    seq(|xs|, k requires 0 <= k < |xs| => RunOf(p, xs[k], certOf(xs[k])))
  }

  lemma RunsOfAre(p: PlPartition, n: nat, signed: set<seq<byte>>, xs: seq<seq<byte>>, certOf: seq<byte> -> seq<byte>)
    requires p.chunkSize > 0 && p.blockSize < U32 && |xs| <= n
    requires forall x :: x in signed ==> Certifies(p, certOf(x), x)
    requires forall k :: 0 <= k < |xs| ==>
               xs[k] in signed && |xs[k]| == p.TakenLen(k) && NumChunks(|xs[k]|, p.chunkSize) <= p.noOfHashs
    ensures var bs := RunsOf(p, xs, certOf);
            && Possible(p, n, signed, bs) && (forall k :: 0 <= k < |bs| ==> p.Complete(bs[k]))
            && Join(AllReleased(bs)) == Join(xs)
  {
    var bs := RunsOf(p, xs, certOf);
    forall k | 0 <= k < |bs|
      ensures p.BlockAsPlaced(bs[k], k) && p.Complete(bs[k]) && AttestedBlock(p, signed, bs[k])
      ensures Join(bs[k].signed) == xs[k]
    {
      RunOfIs(p, signed, k, xs[k], certOf(xs[k]));
    }
    hide Certifies, AttestedBlock, RunOf;
    BlocksAssemble(p, signed, bs);
    assert SignedOf(bs) == xs;
  }

  /** With a stand-in some run does not deliver. */
  lemma StandInMisleads(p: PlPartition, n: nat, s: seq<byte>, signed: set<seq<byte>>, certOf: seq<byte> -> seq<byte>,
                        k: nat, x: seq<byte>) returns (bs: seq<BlockRun>)
    requires p.WellPlaced(n) && p.chunkSize > 0 && |s| == p.acOffset - p.startAddress
    requires forall y :: y in signed ==> Certifies(p, certOf(y), y)
    requires forall j :: 0 <= j < n ==> BlockOf(p, s, j) in signed
    requires k < n && x in signed && |x| == p.TakenLen(k) && HasRoom(p, k) && x != BlockOf(p, s, k)
    ensures Possible(p, n, signed, bs) && !IsDelivered(p, n, s, bs)
  {
    var xs := Substituted(p, s, k, x);
    forall j | 0 <= j < |xs|
      ensures xs[j] in signed && |xs[j]| == p.TakenLen(j) && NumChunks(|xs[j]|, p.chunkSize) <= p.noOfHashs
    {
      if j < k {
        FullBlock(p, n, s, j);
      }
    }
    bs := RunsOf(p, xs, certOf);
    RunsOfAre(p, n, signed, xs, certOf);
    FirstBlocksJoin(p, n, s, k);
    JoinNext(FirstBlocks(p, s, k), x);
    StartOf(p, n, k);
    EndOfBlocks(p, n, k);
    hide Certifies, RunsOf, HasRoom, Join;
    Misplaced(p, n, s, k, x);
    if k < n - 1 {
      FullBlock(p, n, s, k);
    }
  }

  lemma FullBlock(p: PlPartition, n: nat, s: seq<byte>, j: nat)
    requires p.WellPlaced(n) && |s| == p.acOffset - p.startAddress && j < n - 1
    ensures p.TakenLen(j) == p.blockSize == |BlockOf(p, s, j)|
  {
    StartOf(p, n, j);
    StartOf(p, n, j + 1);
    BlockLies(p, n, s, j);
    hide BlockOf, LastBlockLen, EndOf, PlPartition.BlockStart, PlPartition.WellPlaced;
  }

  /** Wherever another block of the same length is put, or another ending, the result is not `s`. */
  lemma Misplaced(p: PlPartition, n: nat, s: seq<byte>, k: nat, x: seq<byte>)
    requires p.WellPlaced(n) && |s| == p.acOffset - p.startAddress && k < n && x != BlockOf(p, s, k)
    ensures var from := p.BlockStart(k) - p.startAddress;
            && 0 <= from <= |s|
            && (|x| == |BlockOf(p, s, k)| ==> !(s[..from] + x <= s))
            && (k == n - 1 ==> s[..from] + x != s)
  {
    StartOf(p, n, k);
    var from := p.BlockStart(k) - p.startAddress;
    var got := s[..from] + x;
    assert got[from..] == x;
    if got <= s {
      assert x == s[from..from + |x|];
    }
    if k == n - 1 {
      FirstBlocksJoin(p, n, s, n);
    }
  }

  /** Every run delivers `s`, or a beginning of it, if and only if no other signed block fits any place
      that a load can come to. */
  lemma DeliversExactly(p: PlPartition, n: nat, s: seq<byte>, signed: set<seq<byte>>, certOf: seq<byte> -> seq<byte>)
    requires p.WellPlaced(n) && p.chunkSize > 0 && |s| == p.acOffset - p.startAddress
    requires forall x :: x in signed ==> Certifies(p, certOf(x), x)
    requires forall k :: 0 <= k < n ==> BlockOf(p, s, k) in signed
    ensures (forall bs :: Possible(p, n, signed, bs) ==> IsDelivered(p, n, s, bs)) <==> NoStandIn(p, n, s, signed)
  {
    if NoStandIn(p, n, s, signed) {
      forall bs | Possible(p, n, signed, bs) ensures IsDelivered(p, n, s, bs) {
        NoStandInDelivers(p, n, s, signed, bs);
      }
    } else {
      var k: nat, x :| k < n && x in signed && |x| == p.TakenLen(k) && HasRoom(p, k) && x != BlockOf(p, s, k);
      var bs := StandInMisleads(p, n, s, signed, certOf, k, x);
    }
  }

  /** If only the blocks of `s` have been signed, and there is room and count for them, that is to say
      that any two blocks of the same length are the same. */
  lemma NoStandInMeans(p: PlPartition, n: nat, s: seq<byte>)
    requires p.WellPlaced(n) && p.chunkSize > 0 && |s| == p.acOffset - p.startAddress
    requires p.CountServes(n) && !p.Refused(n)
    ensures NoStandIn(p, n, s, BlocksOf(p, n, s))
            <==> forall i, j :: 0 <= i < n && 0 <= j < n && p.BlockLen(i) == p.BlockLen(j) ==>
                   BlockOf(p, s, i) == BlockOf(p, s, j)
  {
    forall k | 0 <= k < n ensures p.TakenLen(k) == p.BlockLen(k) == |BlockOf(p, s, k)| && HasRoom(p, k) {
      StartOf(p, n, k);
      p.TakenIsRight(n, k);
    }
    hide HasRoom, CutsWell;
    var signed := BlocksOf(p, n, s);
    if NoStandIn(p, n, s, signed) {
      forall i, j | 0 <= i < n && 0 <= j < n && p.BlockLen(i) == p.BlockLen(j)
        ensures BlockOf(p, s, i) == BlockOf(p, s, j)
      {
        assert BlockOf(p, s, i) in signed;
      }
    }
  }

  // ---- Memory that holds still ----

  /** The memory of `p` is steady and holds `data`, cut into `n` blocks, and behind it `certs`. */
  ghost predicate Holds(p: PlPartition, n: nat, data: seq<byte>, certs: seq<seq<byte>>) {
    p.source.Steady? && LaidOut(p.source.image, p.startAddress, p.acOffset, n, data, certs)
  }

  ghost predicate LaidOut(image: nat -> byte, start: nat, acOffset: nat, n: nat, data: seq<byte>,
                          certs: seq<seq<byte>>)
  {
    && |data| == acOffset - start && |certs| == n
    && (forall i :: 0 <= i < |data| ==> image(start + i) == data[i])
    && (forall k :: 0 <= k < n ==> |certs[k]| == AC_SIZE)
    && (forall k, i :: 0 <= k < n && 0 <= i < AC_SIZE ==> image(acOffset + k * AC_SIZE + i) == certs[k][i])
  }

  /** There is such a memory for any data and certificates. */
  function Image(start: nat, acOffset: nat, data: seq<byte>, certs: seq<seq<byte>>): nat -> byte
    requires |data| == acOffset - start && forall k :: 0 <= k < |certs| ==> |certs[k]| == AC_SIZE
  {
    (a: nat) =>
      if a < start then 0
      else if a < acOffset then data[a - start]
      else if (a - acOffset) / AC_SIZE < |certs| then certs[(a - acOffset) / AC_SIZE][(a - acOffset) % AC_SIZE]
      else 0
  }

  lemma ImageIsLaidOut(start: nat, acOffset: nat, data: seq<byte>, certs: seq<seq<byte>>)
    requires |data| == acOffset - start && forall k :: 0 <= k < |certs| ==> |certs[k]| == AC_SIZE
    ensures LaidOut(Image(start, acOffset, data, certs), start, acOffset, |certs|, data, certs)
  {
    forall k, i | 0 <= k < |certs| && 0 <= i < AC_SIZE
      ensures Image(start, acOffset, data, certs)(acOffset + k * AC_SIZE + i) == certs[k][i]
    {
      DivUnique(k * AC_SIZE + i, AC_SIZE, k, i);
    }
  }

  lemma HeldIs(image: nat -> byte, addr: nat, xs: seq<byte>)
    requires forall i :: 0 <= i < |xs| ==> image(addr + i) == xs[i]
    ensures Held(image, Read(addr, |xs|)) == xs
  {
  }

  lemma PartIsHeld(image: nat -> byte, start: nat, data: seq<byte>, from: nat, len: nat)
    requires forall i :: 0 <= i < |data| ==> image(start + i) == data[i]
    requires from + len <= |data|
    ensures Held(image, Read(start + from, len)) == data[from..from + len]
  {
    var part, at := data[from..from + len], start + from;
    forall i | 0 <= i < |part| ensures image(at + i) == part[i] {
      assert at + i == start + (from + i);
    }
    HeldIs(image, at, part);
  }

  lemma BlockIsHeld(p: PlPartition, n: nat, data: seq<byte>, certs: seq<seq<byte>>, k: nat)
    requires p.WellPlaced(n) && p.CountServes(n) && Holds(p, n, data, certs) && k < n
    ensures p.BlockHeld(p.source.image, k) == BlockOf(p, data, k) && p.CertHeld(p.source.image, k) == certs[k]
  {
    StartOf(p, n, k);
    p.TakenIsRight(n, k);
    BlockOfLength(p, data, k);
    var image, from := p.source.image, p.BlockStart(k) - p.startAddress;
    hide Held, BlockOf, LastBlockLen;
    PartIsHeld(image, p.startAddress, data, from, p.BlockLen(k));
    HeldIs(image, p.acOffset + k * AC_SIZE, certs[k]);
  }

  lemma {:induction false} DataIsHeld(p: PlPartition, n: nat, data: seq<byte>, certs: seq<seq<byte>>, m: nat)
    requires p.WellPlaced(n) && p.CountServes(n) && Holds(p, n, data, certs) && m <= n
    ensures p.DataHeld(p.source.image, m) == Join(FirstBlocks(p, data, m))
    decreases m
  {
    if m == 0 {
    } else {
      DataIsHeld(p, n, data, certs, m - 1);
      BlockIsHeld(p, n, data, certs, m - 1);
      hide BlockOf, Holds;
      JoinNext(FirstBlocks(p, data, m - 1), BlockOf(p, data, m - 1));
      assert FirstBlocks(p, data, m) == FirstBlocks(p, data, m - 1) + [BlockOf(p, data, m - 1)];
    }
  }

  /** The first `m` blocks get through with their certificates, and the next one, if any, does not. */
  ghost predicate StopsAt(p: PlPartition, n: nat, data: seq<byte>, certs: seq<seq<byte>>, m: nat)
    requires p.chunkSize > 0 && |data| == p.acOffset - p.startAddress && |certs| == n
  {
    && m <= n
    && (forall k :: 0 <= k < m ==> p.Accepts(BlockOf(p, data, k), certs[k]))
    && (m < n ==> !p.Accepts(BlockOf(p, data, m), certs[m]))
  }

  lemma StopsThere(p: PlPartition, n: nat, data: seq<byte>, certs: seq<seq<byte>>, m: nat)
    requires p.WellPlaced(n) && p.CountServes(n) && p.chunkSize > 0 && Holds(p, n, data, certs)
    requires StopsAt(p, n, data, certs, m)
    ensures p.Stops(p.source.image, n, m)
  {
    forall k: nat | k < n ensures p.AcceptsBlock(p.source.image, k) <==> p.Accepts(BlockOf(p, data, k), certs[k]) {
      BlockIsHeld(p, n, data, certs, k);
    }
    hide BlockOf, Holds;
  }

  /** The load of a bitstream in clear from memory that holds still, with a PCAP that works: it is
      refused at the first block whose certificate, key or number of chunks is not good, and
      otherwise succeeds; the PCAP has received exactly the blocks before that. */
  method SteadyLoad(p: PlPartition, ghost n: nat, ghost data: seq<byte>, ghost certs: seq<seq<byte>>, ghost m: nat)
    returns (status: LoadStatus)
    requires p.Valid() && p.Delivered() && p.blocks == [] && p.released == [] && p.trace == []
    requires p.WellPlaced(n) && p.CountServes(n) && p.isAuthenticated && p.Undisturbed() && !p.isEncrypted
    requires Holds(p, n, data, certs)
    requires StopsAt(p, n, data, certs, m)
    modifies p, p.hashesOfChunks, p.aes, p.aes.secureHdr
    ensures status == Loaded <==> m == n
    ensures m < n ==> p.IsRefusal(status)
    ensures 0 <= EndOf(p, m) <= |data| && p.pcap == data[..EndOf(p, m)]
    ensures m == n ==> p.pcap == data
  {
    assert p.chunkSize > 0 && !p.isEncrypted;
    StopsThere(p, n, data, certs, m);
    DataIsHeld(p, n, data, certs, m);
    FirstBlocksJoin(p, n, data, m);
    hide *;
    status := p.SecPlPartition(n);
    SteadilyLoaded(p, n, m, status);
  }

  lemma SteadilyLoaded(p: PlPartition, n: nat, m: nat, status: LoadStatus)
    requires p.SteadyEnd(n, status) && p.DeliveredAs(status)
    requires p.Undisturbed() && !p.isEncrypted && p.isAuthenticated && p.Stops(p.source.image, n, m)
    ensures status == Loaded <==> m == n
    ensures m < n ==> p.IsRefusal(status)
    ensures p.blockSize < U32 && p.pcap == p.DataHeld(p.source.image, m)
  {
    p.ChunksHeldJoin(p.source.image, m);
    hide PlPartition.ChunksHeld, PlPartition.DataHeld, PlPartition.AcceptsBlock;
  }

  /** The chunks of the first blocks are a beginning of the data, cut into chunks the parser can take. */
  lemma CutIsLong(p: PlPartition, n: nat, data: seq<byte>, certs: seq<seq<byte>>, k: nat)
    requires p.WellPlaced(n) && p.CountServes(n) && Holds(p, n, data, certs) && k < n
    requires p.chunkSize > 0 && CutsWell(p.blockSize, p.chunkSize)
    ensures LongEnough(Cut(p.BlockHeld(p.source.image, k), p.chunkSize), k == n - 1)
  {
    BlockIsHeld(p, n, data, certs, k);
    BlockOfLength(p, data, k);
    StartOf(p, n, k);
    if k < n - 1 {
      FullLength(p, n, k);
    }
    var cut := Cut(BlockOf(p, data, k), p.chunkSize);
    CutIs(BlockOf(p, data, k), p.BlockStart(k), p.chunkSize);
    hide *;
    ReleasedSizes(p, k, cut, |cut|, k == n - 1);
    assert cut[..|cut|] == cut;
  }

  lemma {:induction false} ChunksAreLong(p: PlPartition, n: nat, data: seq<byte>, certs: seq<seq<byte>>, m: nat)
    requires p.WellPlaced(n) && p.CountServes(n) && Holds(p, n, data, certs) && m <= n
    requires p.chunkSize > 0 && CutsWell(p.blockSize, p.chunkSize)
    ensures LongEnough(p.ChunksHeld(p.source.image, m), m == n)
    decreases m
  {
    assert p.source.Steady? && p.blockSize < U32;
    hide Cut, Holds, CutsWell, PlPartition.BlockHeld, PlPartition.WellPlaced, PlPartition.CountServes;
    if m == 0 {
    } else {
      ChunksAreLong(p, n, data, certs, m - 1);
      CutIsLong(p, n, data, certs, m - 1);
      hide LongEnough;
      var cut := Cut(p.BlockHeld(p.source.image, m - 1), p.chunkSize);
      LongEnoughJoin(p.ChunksHeld(p.source.image, m - 1), cut, m == n);
    }
  }

  /** So the engine takes them all, if the data is a well-formed encrypted stream. */
  lemma ChunksAreTaken(p: PlPartition, n: nat, s: seq<byte>, certs: seq<seq<byte>>, m: nat)
    requires p.WellPlaced(n) && p.CountServes(n) && Holds(p, n, s, certs) && m <= n
    requires p.chunkSize > 0 && CutsWell(p.blockSize, p.chunkSize) && WellFormed(p.aes.engine, [], true, s)
    ensures var chunks, start := p.ChunksHeld(p.source.image, m), Stream(InHeader(true, []), []);
            var (st, t) := FeedAll(p.aes.engine, start, chunks);
            && st == Success && t.log <= OnePass(p.aes.engine, [], true, s)
            && (m == n ==> t == Stream(InHeader(true, []), OnePass(p.aes.engine, [], true, s)))
  {
    var chunks := p.ChunksHeld(p.source.image, m);
    ChunksAreLong(p, n, s, certs, m);
    p.ChunksHeldJoin(p.source.image, m);
    DataIsHeld(p, n, s, certs, m);
    FirstBlocksJoin(p, n, s, m);
    if m < n {
      BlockLies(p, n, s, m);
      StartOf(p, n, m);
    }
    assert EndOf(p, m) == |s| <==> m == n;
    hide BlockOf, Holds, CutsWell, LongEnough, WellFormed, OnePass, FeedAll, EndOf, PlPartition.ChunksHeld, FirstBlocks;
    PrefixOfOnePass(p.aes.engine, s, EndOf(p, m), chunks);
    if m == n {
      assert s[..|s|] == s;
      ChunkingInvariance(p.aes.engine, s, chunks);
    }
  }

  /** The load of a well-formed encrypted bitstream from memory that holds still, with a PCAP that
      works: it too stops at the first block that is not good, and otherwise succeeds; the engine has
      then been given what one pass over the stream gives it. */
  method EncryptedSteadyLoad(p: PlPartition, ghost n: nat, ghost s: seq<byte>, ghost certs: seq<seq<byte>>,
                             ghost m: nat)
    returns (status: LoadStatus)
    requires p.Valid() && p.Delivered() && p.blocks == [] && p.released == [] && p.trace == []
    requires p.WellPlaced(n) && p.CountServes(n) && p.isAuthenticated && p.Undisturbed() && p.isEncrypted
    requires Holds(p, n, s, certs) && StopsAt(p, n, s, certs, m)
    requires CutsWell(p.blockSize, p.chunkSize) && WellFormed(p.aes.engine, [], true, s)
    modifies p, p.hashesOfChunks, p.aes, p.aes.secureHdr
    ensures status == Loaded <==> m == n
    ensures m < n ==> p.IsRefusal(status)
    ensures p.aes.log <= OnePass(p.aes.engine, [], true, s)
    ensures m == n ==> p.aes.log == OnePass(p.aes.engine, [], true, s)
  {
    assert p.chunkSize > 0;
    StopsThere(p, n, s, certs, m);
    ChunksAreTaken(p, n, s, certs, m);
    hide *;
    status := p.SecPlPartition(n);
    SteadilyDecrypted(p, n, m, status);
  }

  lemma SteadilyDecrypted(p: PlPartition, n: nat, m: nat, status: LoadStatus)
    requires p.SteadyEnd(n, status) && p.DeliveredAs(status)
    requires p.Undisturbed() && p.isEncrypted && p.isAuthenticated && p.Stops(p.source.image, n, m)
    requires FeedAll(p.aes.engine, Stream(InHeader(true, []), []), p.ChunksHeld(p.source.image, m)).0 == Success
    ensures status == Loaded <==> m == n
    ensures m < n ==> p.IsRefusal(status)
    ensures p.aes.log
            == FeedAll(p.aes.engine, Stream(InHeader(true, []), []), p.ChunksHeld(p.source.image, m)).1.log
  {
    hide PlPartition.ChunksHeld, PlPartition.AcceptsBlock, FeedAll;
    assert p.EndsAt(status, n, m, p.ChunksHeld(p.source.image, m));
  }

  /** As many blocks as there are places, each as long as its place. */
  ghost predicate FitPlaces(p: PlPartition, n: nat, xs: seq<seq<byte>>) {
    |xs| == n && forall k :: 0 <= k < n ==> |xs[k]| == p.BlockLen(k)
  }

  lemma {:induction false} JoinedLength(p: PlPartition, n: nat, s: seq<byte>, xs: seq<seq<byte>>, m: nat)
    requires p.WellPlaced(n) && |s| == p.acOffset - p.startAddress && FitPlaces(p, n, xs) && m <= n
    ensures |Join(xs[..m])| == EndOf(p, m)
    decreases m
  {
    if m == 0 {
      EndOfBlocks(p, n, 0);
    } else {
      JoinedLength(p, n, s, xs, m - 1);
      BlockLies(p, n, s, m - 1);
      JoinNext(xs[..m - 1], xs[m - 1]);
      hide BlockOf, EndOf, Join;
      assert xs[..m] == xs[..m - 1] + [xs[m - 1]];
    }
  }

  /** Joined, they are a bitstream whose blocks they are. */
  lemma JoinedBlock(p: PlPartition, n: nat, s: seq<byte>, xs: seq<seq<byte>>, k: nat)
    requires p.WellPlaced(n) && |s| == p.acOffset - p.startAddress && FitPlaces(p, n, xs) && k < n
    ensures |Join(xs)| == |s| && BlockOf(p, Join(xs), k) == xs[k]
  {
    JoinedLength(p, n, s, xs, n);
    JoinedLength(p, n, s, xs, k);
    FirstBlocksJoin(p, n, s, n);
    assert xs[..n] == xs;
    BlockLies(p, n, Join(xs), k);
    var head, tail := xs[..k], xs[k + 1..];
    assert xs == (head + [xs[k]]) + tail;
    JoinAppend(head + [xs[k]], tail);
    JoinNext(head, xs[k]);
    hide BlockOf, EndOf, Join;
    InTheMiddle(Join(head), xs[k], Join(tail));
  }

  lemma InTheMiddle(a: seq<byte>, x: seq<byte>, b: seq<byte>)
    ensures (a + x + b)[|a|..|a| + |x|] == x
  {
  }

  /** The blocks of `s` in another order. */
  ghost function Rearranged(p: PlPartition, s: seq<byte>, order: seq<nat>): seq<seq<byte>>
    requires |s| == p.acOffset - p.startAddress
  {
    seq(|order|, k requires 0 <= k < |order| => BlockOf(p, s, order[k]))
  }

  ghost predicate FitsPlaces(p: PlPartition, n: nat, order: seq<nat>) {
    |order| == n && forall k :: 0 <= k < n ==> order[k] < n && p.BlockLen(order[k]) == p.BlockLen(k)
  }

  lemma RearrangedFits(p: PlPartition, n: nat, s: seq<byte>, order: seq<nat>)
    requires p.WellPlaced(n) && |s| == p.acOffset - p.startAddress && FitsPlaces(p, n, order)
    ensures FitPlaces(p, n, Rearranged(p, s, order))
  {
    forall k | 0 <= k < n ensures |BlockOf(p, s, order[k])| == p.BlockLen(k) {
      BlockLies(p, n, s, order[k]);
      hide BlockOf, EndOf;
    }
  }

  /** Block `k` of the rearranged bitstream is block `order[k]` of `s`. */
  lemma RearrangedBlock(p: PlPartition, n: nat, s: seq<byte>, order: seq<nat>, k: nat)
    requires p.WellPlaced(n) && |s| == p.acOffset - p.startAddress && FitsPlaces(p, n, order) && k < n
    ensures var data := Join(Rearranged(p, s, order));
            |data| == |s| && BlockOf(p, data, k) == BlockOf(p, s, order[k])
  {
    RearrangedFits(p, n, s, order);
    hide BlockOf, FitPlaces, Join;
    JoinedBlock(p, n, s, Rearranged(p, s, order), k);
  }

  /** It is `s` exactly if every block is the same as the one whose place it has. */
  lemma RearrangedIsSame(p: PlPartition, n: nat, s: seq<byte>, order: seq<nat>)
    requires p.WellPlaced(n) && |s| == p.acOffset - p.startAddress && FitsPlaces(p, n, order)
    ensures Join(Rearranged(p, s, order)) == s
            <==> forall k :: 0 <= k < n ==> BlockOf(p, s, order[k]) == BlockOf(p, s, k)
  {
    FirstBlocksJoin(p, n, s, n);
    hide BlockOf, Join, EndOf, FitsPlaces;
    if forall k :: 0 <= k < n ==> BlockOf(p, s, order[k]) == BlockOf(p, s, k) {
      assert Rearranged(p, s, order) == FirstBlocks(p, s, n);
      assert s[..|s|] == s;
    }
    if Join(Rearranged(p, s, order)) == s {
      forall k | 0 <= k < n ensures BlockOf(p, s, order[k]) == BlockOf(p, s, k) {
        RearrangedBlock(p, n, s, order, k);
      }
    }
  }

  /** Signed blocks that have been put at each other's places, each with its certificate, are loaded as
      if nothing had happened. */
  method RearrangedLoad(p: PlPartition, ghost n: nat, ghost s: seq<byte>, ghost certs: seq<seq<byte>>,
                        ghost order: seq<nat>)
    returns (status: LoadStatus)
    requires p.Valid() && p.Delivered() && p.blocks == [] && p.released == [] && p.trace == []
    requires p.WellPlaced(n) && p.CountServes(n) && p.isAuthenticated && p.Undisturbed() && !p.isEncrypted
    requires |s| == p.acOffset - p.startAddress && |certs| == n && FitsPlaces(p, n, order)
    requires forall k :: 0 <= k < n ==> p.Accepts(BlockOf(p, s, k), certs[k])
    requires Holds(p, n, Join(Rearranged(p, s, order)), seq(n, k requires 0 <= k < n => certs[order[k]]))
    modifies p, p.hashesOfChunks, p.aes, p.aes.secureHdr
    ensures status == Loaded && p.pcap == Join(Rearranged(p, s, order))
    ensures p.pcap == s <==> forall k :: 0 <= k < n ==> BlockOf(p, s, order[k]) == BlockOf(p, s, k)
  {
    ghost var data, moved := Join(Rearranged(p, s, order)), seq(n, k requires 0 <= k < n => certs[order[k]]);
    assert p.chunkSize > 0;
    forall k | 0 <= k < n ensures p.Accepts(BlockOf(p, data, k), moved[k]) {
      RearrangedBlock(p, n, s, order, k);
    }
    assert StopsAt(p, n, data, moved, n);
    RearrangedIsSame(p, n, s, order);
    hide *;
    status := SteadyLoad(p, n, data, moved, n);
  }
}
