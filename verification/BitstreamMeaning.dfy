/**
 What a secure bitstream load amounts to, from the vendor's bitstream to the AES engine: the
 authentication and the decryption halves put together.
 */
module BitstreamMeaning {
  import opened Arith
  import opened Words
  import opened SecureHeaderStream
  import opened ChunkedDecrypt
  import opened BitstreamLayout
  import opened BitstreamAuth

  function LastChunk(len: nat, c: nat): nat
    requires c > 0
    decreases len
  {
    if len <= c then len else LastChunk(len - c, c)
  }

  /** The sizes the loader is built with: 56 KB chunks of 4 MB or 8 MB blocks, the block sizes its
      hash buffer has room for. */
  const READ_BUFFER_SIZE: nat := 56 * 1024
  const HASH_BUFFER_SIZE: nat := 7 * 1024

  /** Every chunk of a full block can hold a header and tag. */
  ghost predicate CutsWell(bs: nat, c: nat) {
    c >= AES_TAG_SIZE && LastChunk(bs, c) >= AES_TAG_SIZE
  }

  lemma {:induction false} LastChunkIs(len: nat, c: nat, n: nat)
    requires c > 0 && n * c < len <= (n + 1) * c
    ensures LastChunk(len, c) == len - n * c && NumChunks(len, c) == n + 1
    decreases n
  {
    if n == 0 {
    } else {
      assert n * c == (n - 1) * c + c;
      MulMono(1, n, c);
      LastChunkIs(len - c, c, n - 1);
    }
  }

  /** Of the block sizes a header can announce, the hash buffer admits two, and both cut well. */
  lemma ShippedSizes(code: nat)
    requires 1 <= code <= 7
    ensures var bs := [4, 8, 16, 32, 64, 128, 256][code - 1] * 0x10_0000;
            && (NumChunks(bs, READ_BUFFER_SIZE) <= HASH_BUFFER_SIZE / HASH_LEN <==> code <= 2)
            && (code <= 2 ==> CutsWell(bs, READ_BUFFER_SIZE))
  {
    var mb := 0x10_0000;
    LastChunkIs(4 * mb, READ_BUFFER_SIZE, 73);
    LastChunkIs(8 * mb, READ_BUFFER_SIZE, 146);
    LastChunkIs(16 * mb, READ_BUFFER_SIZE, 292);
    LastChunkIs(32 * mb, READ_BUFFER_SIZE, 585);
    LastChunkIs(64 * mb, READ_BUFFER_SIZE, 1170);
    LastChunkIs(128 * mb, READ_BUFFER_SIZE, 2340);
    LastChunkIs(256 * mb, READ_BUFFER_SIZE, 4681);
  }

  /** The sizes of the chunks of a block. */
  lemma {:induction false} ChunkSizes(addr: nat, len: nat, c: nat, i: nat)
    requires c > 0 && i < |ChunkReads(addr, len, c)|
    ensures ChunkReads(addr, len, c)[i].len
            == if i == |ChunkReads(addr, len, c)| - 1 then LastChunk(len, c) else c
    ensures len > 0 ==> LastChunk(len, c) > 0
    decreases len
  {
    if len <= c {
    } else {
      var rest := ChunkReads(addr + c, len - c, c);
      ChunkSizes(addr + c, len - c, c, if i == 0 then 0 else i - 1);
    }
  }

  /** Block `k` of the bitstream `s`. */
  function BlockOf(p: PlPartition, s: seq<byte>, k: nat): seq<byte>
    requires |s| == p.acOffset - p.startAddress
  {
    if p.BlockStart(k) >= p.acOffset then []
    else s[p.BlockStart(k) - p.startAddress..p.BlockStart(k) + p.BlockLen(k) - p.startAddress]
  }

  /** The blocks of `s`, as the vendor signs them. */
  ghost function BlocksOf(p: PlPartition, n: nat, s: seq<byte>): set<seq<byte>>
    requires |s| == p.acOffset - p.startAddress
  {
    set k | 0 <= k < n :: BlockOf(p, s, k)
  }

  /** The hash does not collide on what was released of a block and what was signed. */
  ghost predicate NoCollision(p: PlPartition, b: BlockRun) {
    |b.released| <= |b.signed| ==>
      var a, r := Join(b.signed[..|b.released|]), Join(b.released);
      p.crypto.hash(a) == p.crypto.hash(r) ==> a == r
  }

  /** What the signatures say: wherever one was accepted, it was for one of the blocks that have been
      `signed`; where that block belongs no signature says. */
  ghost predicate Attested(p: PlPartition, signed: set<seq<byte>>, bs: seq<BlockRun>) {
    forall k :: 0 <= k < |bs| ==> AttestedBlock(p, signed, bs[k])
  }

  ghost predicate AttestedBlock(p: PlPartition, signed: set<seq<byte>>, b: BlockRun) {
    (b.signed != [] ==> Join(b.signed) in signed) && NoCollision(p, b)
  }

  /** The blocks accepted are moreover those of `s` at their places. */
  ghost predicate Genuine(p: PlPartition, s: seq<byte>)
    reads p
  {
    && |s| == p.acOffset - p.startAddress
    && forall k :: 0 <= k < |p.blocks| ==> GenuineBlock(p, s, k, p.blocks[k])
  }

  ghost predicate GenuineBlock(p: PlPartition, s: seq<byte>, k: nat, b: BlockRun)
    requires |s| == p.acOffset - p.startAddress
  {
    (b.signed != [] ==> Join(b.signed) == BlockOf(p, s, k)) && NoCollision(p, b)
  }

  lemma {:induction false} JoinReads(chunks: seq<seq<byte>>, addr: nat, len: nat, c: nat)
    requires c > 0 && ReadAs(chunks, ChunkReads(addr, len, c))
    ensures |Join(chunks)| == len
    decreases len
  {
    var rs := ChunkReads(addr, len, c);
    assert |chunks[0]| == rs[0].len;
    if len <= c {
      assert chunks[1..] == [];
    } else {
      assert rs[1..] == ChunkReads(addr + c, len - c, c);
      assert ReadAs(chunks[1..], rs[1..]);
      JoinReads(chunks[1..], addr + c, len - c, c);
    }
  }

  /** A signature that holds for the bytes of a block only holds if the block was taken to have its
      length. */
  lemma SignedAsItIs(p: PlPartition, s: seq<byte>, k: nat, b: BlockRun)
    requires |s| == p.acOffset - p.startAddress && p.chunkSize > 0 && p.blockSize < U32
    requires p.BlockAsPlaced(b, k) && GenuineBlock(p, s, k, b) && b.signed != []
    ensures p.TakenLen(k) == p.BlockLen(k)
  {
    JoinReads(b.signed, p.BlockStart(k), p.TakenLen(k), p.chunkSize);
    BlockOfLength(p, s, k);
    hide BlockOf, Vetted, LastBlockLen, ReadAs, NoCollision, Join, PlPartition.TakenLen, PlPartition.BlockLen;
  }

  lemma BlockOfLength(p: PlPartition, s: seq<byte>, k: nat)
    requires |s| == p.acOffset - p.startAddress
    ensures |BlockOf(p, s, k)| == p.BlockLen(k)
    ensures p.BlockStart(k) < p.acOffset ==>
              var from := p.BlockStart(k) - p.startAddress;
              0 <= from <= from + p.BlockLen(k) <= |s| && BlockOf(p, s, k) == s[from..from + p.BlockLen(k)]
  {
  }

  /** The chunks released of a block are its first ones: of full size, but for the very last. */
  lemma ReleasedSizes(p: PlPartition, k: nat, signed: seq<seq<byte>>, m: nat, ends: bool)
    requires p.chunkSize > 0 && CutsWell(p.blockSize, p.chunkSize) && p.BlockStart(k) < p.acOffset && m <= |signed|
    requires ReadAs(signed, ChunkReads(p.BlockStart(k), p.BlockLen(k), p.chunkSize))
    requires p.BlockLen(k) == p.blockSize || ends || m < |signed|
    ensures LongEnough(signed[..m], ends)
  {
    forall i | 0 <= i < m ensures |signed[i]| >= if ends && i == m - 1 then 1 else AES_TAG_SIZE {
      ChunkSizes(p.BlockStart(k), p.BlockLen(k), p.chunkSize, i);
    }
  }

  /** What was released of a block is the beginning of what was signed. */
  lemma ReleasedPart(p: PlPartition, s: seq<byte>, k: nat, b: BlockRun)
    requires |s| == p.acOffset - p.startAddress && b.signed != []
    requires p.BlockStart(k) < p.acOffset
    requires HashMatched(p.crypto, b.signed, b.released) && GenuineBlock(p, s, k, b)
    ensures var from, m := p.BlockStart(k) - p.startAddress, |b.released|;
            var to := from + |Join(b.released)|;
            && m <= |b.signed| && b.released == b.signed[..m]
            && to + |Join(b.signed[m..])| == from + p.BlockLen(k) <= |s|
            && Join(b.released) == s[from..to]
  {
    hide Join, BlockOf, PlPartition.BlockLen, PlPartition.BlockStart;
    ReleasedIsSigned(p.crypto, b.signed, b.released);
    assert |b.released| <= |b.signed| && Join(b.signed) == BlockOf(p, s, k);
    BlockOfLength(p, s, k);
    hide *;
    var rest := b.signed[|b.released|..];
    assert b.signed == b.released + rest;
    JoinAppend(b.released, rest);
    SliceStart(s, p.BlockStart(k) - p.startAddress, p.BlockLen(k), Join(b.released), Join(rest));
  }

  lemma SliceStart(s: seq<byte>, from: nat, len: nat, a: seq<byte>, b: seq<byte>)
    requires from + len <= |s| && s[from..from + len] == a + b
    ensures |a| + |b| == len && a == s[from..from + |a|]
  {
    assert (a + b)[..|a|] == a;
  }

  /** What one block released: the beginning of the block of `s`, cut into usable chunks. */
  lemma BlockReleases(p: PlPartition, n: nat, s: seq<byte>, k: nat, b: BlockRun)
    requires p.WellPlaced(n) && |s| == p.acOffset - p.startAddress && p.BlockStart(k) < p.acOffset
    requires p.chunkSize > 0 && CutsWell(p.blockSize, p.chunkSize)
    requires p.BlockAsPlaced(b, k) && GenuineBlock(p, s, k, b)
    ensures var from := p.BlockStart(k) - p.startAddress;
            var to := from + |Join(b.released)|;
            && to <= |s| && Join(b.released) == s[from..to]
            && LongEnough(b.released, to == |s|)
            && (p.Complete(b) ==> to == from + p.BlockLen(k))
  {
    var m, to := |b.released|, p.BlockStart(k) - p.startAddress + |Join(b.released)|;
    if b.signed != [] {
      SignedAsItIs(p, s, k, b);
      ReleasedPart(p, s, k, b);
      p.BlockShape(n, k);
      assert Join([]) == [];
      hide Vetted, HashMatched, ReadAs, LongEnough, CutsWell, ChunkReads, LastBlockLen, LastChunk, Join, GenuineBlock;
      if m < |b.signed| {
        RestIsLong(p, k, b.signed, m);
      } else {
        assert b.signed[m..] == [];
      }
      ReleasedSizes(p, k, b.signed, m, to == |s|);
    }
  }

  lemma RestIsLong(p: PlPartition, k: nat, signed: seq<seq<byte>>, m: nat)
    requires p.chunkSize > 0 && m < |signed| && p.BlockLen(k) > 0
    requires ReadAs(signed, ChunkReads(p.BlockStart(k), p.BlockLen(k), p.chunkSize))
    ensures |Join(signed[m..])| > 0
  {
    ChunkSizes(p.BlockStart(k), p.BlockLen(k), p.chunkSize, m);
    assert signed[m..][0] == signed[m];
  }

  lemma LongEnoughJoin(a: seq<seq<byte>>, b: seq<seq<byte>>, ending: bool)
    requires LongEnough(a, false) && LongEnough(b, ending)
    ensures LongEnough(a + b, ending)
  {
    var all := a + b;
    forall i | 0 <= i < |all| ensures |all[i]| >= if ending && i == |all| - 1 then 1 else AES_TAG_SIZE {
      if i < |a| {
        assert all[i] == a[i];
      } else {
        assert all[i] == b[i - |a|];
      }
    }
  }

  lemma JoinRuns(a: seq<seq<byte>>, b: seq<seq<byte>>, s: seq<byte>, from: nat, to: nat)
    requires from <= to <= |s| && Join(a) == s[..from] && Join(b) == s[from..to]
    requires LongEnough(a, false) && LongEnough(b, to == |s|)
    ensures Join(a + b) == s[..to] && LongEnough(a + b, to == |s|)
  {
    JoinAppend(a, b);
    assert s[..from] + s[from..to] == s[..to];
    LongEnoughJoin(a, b, to == |s|);
  }

  lemma StartOf(p: PlPartition, n: nat, k: nat)
    requires p.WellPlaced(n) && k < n
    ensures p.BlockStart(k) < p.acOffset
    ensures p.BlockStart(k + 1) == p.BlockStart(k) + p.blockSize
    ensures p.BlockStart(k) + p.BlockLen(k) == Min(p.BlockStart(k + 1), p.acOffset)
  {
    MulMono(k, n - 1, p.blockSize);
    assert (k + 1) * p.blockSize == k * p.blockSize + p.blockSize;
  }

  /** `cs` is a beginning of `s`, `j` bytes long, cut into usable chunks. */
  ghost predicate CutsOf(cs: seq<seq<byte>>, s: seq<byte>, j: int) {
    && 0 <= j <= |s|
    && Join(cs) == s[..j]
    && LongEnough(cs, j == |s|)
  }

  /** Where the data released by the first `m` blocks ends, if the last of them is complete. */
  ghost function EndOf(p: PlPartition, m: nat): int {
    Min(p.BlockStart(m), p.acOffset) - p.startAddress
  }

  /** One more block. */
  lemma NextRelease(p: PlPartition, n: nat, s: seq<byte>, k: nat, before: seq<seq<byte>>, b: BlockRun)
    requires p.WellPlaced(n) && |s| == p.acOffset - p.startAddress && k < n
    requires p.chunkSize > 0 && CutsWell(p.blockSize, p.chunkSize)
    requires p.BlockAsPlaced(b, k) && GenuineBlock(p, s, k, b)
    requires CutsOf(before, s, p.BlockStart(k) - p.startAddress)
    ensures var j := p.BlockStart(k) - p.startAddress + |Join(b.released)|;
            && CutsOf(before + b.released, s, j)
            && (p.Complete(b) ==> j == EndOf(p, k + 1))
  {
    StartOf(p, n, k);
    BlockReleases(p, n, s, k, b);
    var from := p.BlockStart(k) - p.startAddress;
    JoinRuns(before, b.released, s, from, from + |Join(b.released)|);
  }

  lemma BlockFacts(p: PlPartition, s: seq<byte>, k: nat)
    requires p.Progress() && Genuine(p, s) && k < |p.blocks|
    ensures p.chunkSize > 0 && p.blockSize < U32 && |s| == p.acOffset - p.startAddress
    ensures p.BlockAsPlaced(p.blocks[k], k) && GenuineBlock(p, s, k, p.blocks[k])
    ensures k + 1 < |p.blocks| ==> p.Complete(p.blocks[k])
  {
    hide AllReleased, Vetted, ReadAs, GenuineBlock;
  }

  lemma AllReleasedNext(blocks: seq<BlockRun>, m: nat)
    requires 0 < m <= |blocks|
    ensures AllReleased(blocks[..m]) == AllReleased(blocks[..m - 1]) + blocks[m - 1].released
  {
    assert blocks[..m][..m - 1] == blocks[..m - 1];
  }

  lemma EndOfBlocks(p: PlPartition, n: nat, m: nat)
    requires p.WellPlaced(n) && m <= n
    ensures EndOf(p, 0) == 0
    ensures m < n ==> EndOf(p, m) == p.BlockStart(m) - p.startAddress
  {
    if m < n {
      StartOf(p, n, m);
    }
  }

  /** Where the blocks lie. */
  lemma BlockLies(p: PlPartition, n: nat, s: seq<byte>, k: nat)
    requires p.WellPlaced(n) && |s| == p.acOffset - p.startAddress && k < n
    ensures EndOf(p, 0) == 0 <= EndOf(p, k) == p.BlockStart(k) - p.startAddress
    ensures EndOf(p, k + 1) == EndOf(p, k) + p.BlockLen(k) <= |s| && (k == n - 1 ==> EndOf(p, k + 1) == |s|)
    ensures BlockOf(p, s, k) == s[EndOf(p, k)..EndOf(p, k + 1)]
  {
    StartOf(p, n, k);
    EndOfBlocks(p, n, k);
  }

  lemma NothingReleased(blocks: seq<BlockRun>, s: seq<byte>)
    ensures CutsOf(AllReleased(blocks[..0]), s, 0)
  {
  }

  /** What the first `m` blocks released, together. */
  lemma {:induction false} BlocksRelease(p: PlPartition, n: nat, s: seq<byte>, m: nat) returns (j: int)
    requires p.WellPlaced(n) && p.Progress() && m <= |p.blocks| <= n
    requires CutsWell(p.blockSize, p.chunkSize) && Genuine(p, s)
    ensures CutsOf(AllReleased(p.blocks[..m]), s, j)
    ensures m == 0 || p.Complete(p.blocks[m - 1]) ==> j == EndOf(p, m)
    decreases m
  {
    hide *;
    EndOfBlocks(p, n, 0);
    NothingReleased(p.blocks, s);
    j := 0;
    if m == 0 {
    } else {
      var from := BlocksRelease(p, n, s, m - 1);
      if m > 1 {
        BlockFacts(p, s, m - 2);
      }
      BlockFacts(p, s, m - 1);
      EndOfBlocks(p, n, m - 1);
      AllReleasedNext(p.blocks, m);
      NextRelease(p, n, s, m - 1, AllReleased(p.blocks[..m - 1]), p.blocks[m - 1]);
      j := from + |Join(p.blocks[m - 1].released)|;
    }
  }

  /** A load of a signed encrypted bitstream never finds a bad tag or a chunk it cannot take; what
      the engine is given is always a beginning of what one pass over the signed stream gives it,
      and all of it when the load succeeds, however memory behaved in between. */
  lemma EncryptedLoad(p: PlPartition, n: nat, status: LoadStatus, s: seq<byte>)
    requires p.Valid() && p.WellPlaced(n) && p.Progress() && |p.blocks| <= n && p.DeliveredAs(status)
    requires status == Loaded ==> |p.blocks| == n && forall k :: 0 <= k < n ==> p.Complete(p.blocks[k])
    requires CutsWell(p.blockSize, p.chunkSize) && Genuine(p, s)
    requires p.isEncrypted && WellFormed(p.aes.engine, [], true, s)
    ensures status != Decryption(TagMismatch) && status != Decryption(Overrun)
    ensures p.aes.log <= OnePass(p.aes.engine, [], true, s)
    ensures status == Loaded ==> p.aes.log == OnePass(p.aes.engine, [], true, s)
  {
    var m := |p.blocks|;
    var j := BlocksRelease(p, n, s, m);
    assert p.blocks[..m] == p.blocks;
    assert m == n > 0 && status == Loaded ==> p.Complete(p.blocks[n - 1]);
    hide FeedAll, Join, LongEnough, OnePass, WellFormed, Genuine, AllReleased, CutsWell, Vetted;
    PrefixOfOnePass(p.aes.engine, s, j, p.released);
    if status == Loaded {
      if n > 0 {
        StartOf(p, n, n - 1);
      }
      assert j == |s| && s[..j] == s;
      ChunkingInvariance(p.aes.engine, s, p.released);
    }
  }

  /** The same for a bitstream in clear: the PCAP receives a beginning of the signed bytes. */
  lemma ClearLoad(p: PlPartition, n: nat, status: LoadStatus, s: seq<byte>)
    requires p.Valid() && p.WellPlaced(n) && p.Progress() && |p.blocks| <= n && p.DeliveredAs(status)
    requires status == Loaded ==> |p.blocks| == n && forall k :: 0 <= k < n ==> p.Complete(p.blocks[k])
    requires CutsWell(p.blockSize, p.chunkSize) && Genuine(p, s)
    requires !p.isEncrypted
    ensures p.pcap <= s
    ensures status == Loaded ==> p.pcap == s
  {
    var m := |p.blocks|;
    var j := BlocksRelease(p, n, s, m);
    assert p.blocks[..m] == p.blocks;
    if status == Loaded {
      if n > 0 {
        StartOf(p, n, n - 1);
      }
      assert s[..j] == s;
    }
  }

  /** There is room for the hashes of every block up to `k`. */
  ghost predicate HasRoom(p: PlPartition, k: nat)
    requires p.chunkSize > 0 && p.blockSize < U32
  {
    forall j :: 0 <= j <= k ==> NumChunks(p.TakenLen(j), p.chunkSize) <= p.noOfHashs
  }

  /** No other signed block than that of `s` can stand in at any place that a load can come to. */
  ghost predicate NoStandIn(p: PlPartition, n: nat, s: seq<byte>, signed: set<seq<byte>>)
    requires |s| == p.acOffset - p.startAddress && p.chunkSize > 0 && p.blockSize < U32
  {
    forall k: nat, x :: k < n && x in signed && |x| == p.TakenLen(k) && HasRoom(p, k) ==> x == BlockOf(p, s, k)
  }

  /** Then what the signatures say is enough. */
  lemma PlacedByNoStandIn(p: PlPartition, n: nat, s: seq<byte>, signed: set<seq<byte>>, bs: seq<BlockRun>, k: nat)
    requires |s| == p.acOffset - p.startAddress && p.Recorded(bs) && k < |bs| <= n
    requires Attested(p, signed, bs) && NoStandIn(p, n, s, signed)
    ensures GenuineBlock(p, s, k, bs[k])
  {
    assert AttestedBlock(p, signed, bs[k]);
    if bs[k].signed != [] {
      forall j | 0 <= j <= k ensures NumChunks(p.TakenLen(j), p.chunkSize) <= p.noOfHashs {
        assert p.BlockAsPlaced(bs[j], j);
      }
      JoinReads(bs[k].signed, p.BlockStart(k), p.TakenLen(k), p.chunkSize);
      hide BlockOf, NoCollision, Join;
    }
  }

  /** What a load should have done with `s`. */
  ghost predicate Delivers(p: PlPartition, n: nat, s: seq<byte>, status: LoadStatus)
    reads p`pcap, p.aes
  {
    && p.blockSize < U32
    && (p.isEncrypted && WellFormed(p.aes.engine, [], true, s) ==>
          var all := OnePass(p.aes.engine, [], true, s);
          && status != Decryption(TagMismatch) && status != Decryption(Overrun)
          && p.aes.log <= all && (status == Loaded ==> p.aes.log == all))
    && (!p.isEncrypted ==> p.pcap <= s && (status == Loaded ==> p.pcap == s))
    && (status == Loaded ==> forall k :: 0 <= k < n ==> p.TakenLen(k) == p.BlockLen(k))
  }

  /** The blocks that the signatures were accepted for. */
  ghost function SignedOf(bs: seq<BlockRun>): seq<seq<byte>> {
    seq(|bs|, k requires 0 <= k < |bs| => Join(bs[k].signed))
  }

  /** What a load has done with whatever was signed: each block released a beginning of a signed block
      that is as long as the place, and together they are a beginning of such blocks, joined; on
      success all of them. */
  ghost predicate Assembled(p: PlPartition, n: nat, signed: set<seq<byte>>, status: LoadStatus)
    reads p
  {
    && p.blockSize < U32
    && |p.blocks| <= n
    && (forall k :: 0 <= k < |p.blocks| ==> AssembledBlock(p, signed, k, p.blocks[k]))
    && Join(p.released) <= Join(SignedOf(p.blocks))
    && (status == Loaded ==>
          && |p.blocks| == n && (forall k :: 0 <= k < n ==> p.Complete(p.blocks[k]))
          && Join(p.released) == Join(SignedOf(p.blocks)))
    && (!p.isEncrypted ==> p.pcap == Join(p.released))
  }

  ghost predicate AssembledBlock(p: PlPartition, signed: set<seq<byte>>, k: nat, b: BlockRun)
    requires p.blockSize < U32
  {
    && (b.signed != [] ==> Join(b.signed) in signed && |Join(b.signed)| == p.TakenLen(k))
    && Join(b.released) <= Join(b.signed)
    && (p.Complete(b) ==> Join(b.released) == Join(b.signed))
  }

  lemma BlockAssembles(p: PlPartition, signed: set<seq<byte>>, k: nat, b: BlockRun)
    requires p.chunkSize > 0 && p.blockSize < U32 && p.BlockAsPlaced(b, k) && AttestedBlock(p, signed, b)
    ensures AssembledBlock(p, signed, k, b)
  {
    if b.signed != [] {
      JoinReads(b.signed, p.BlockStart(k), p.TakenLen(k), p.chunkSize);
    }
    ReleasedIsSigned(p.crypto, b.signed, b.released);
    var m := |b.released|;
    JoinAppend(b.signed[..m], b.signed[m..]);
    assert b.signed == b.signed[..m] + b.signed[m..];
    if p.Complete(b) {
      assert b.signed[..m] == b.signed;
    }
  }

  /** Behind blocks released in full, the beginning of one more. */
  lemma AssembleNext(before: seq<BlockRun>, b: BlockRun)
    requires Join(AllReleased(before)) == Join(SignedOf(before)) && Join(b.released) <= Join(b.signed)
    ensures var bs := before + [b];
            && Join(AllReleased(bs)) <= Join(SignedOf(bs))
            && (Join(b.released) == Join(b.signed) ==> Join(AllReleased(bs)) == Join(SignedOf(bs)))
  {
    PlPartition.AllReleasedAppend(before, b);
    JoinAppend(AllReleased(before), b.released);
    assert SignedOf(before + [b]) == SignedOf(before) + [Join(b.signed)];
    JoinNext(SignedOf(before), Join(b.signed));
    hide Join, AllReleased, SignedOf;
  }

  lemma {:induction false} BlocksAssemble(p: PlPartition, signed: set<seq<byte>>, bs: seq<BlockRun>)
    requires p.Recorded(bs) && Attested(p, signed, bs)
    ensures Join(AllReleased(bs)) <= Join(SignedOf(bs))
    ensures (forall k :: 0 <= k < |bs| ==> p.Complete(bs[k])) ==> Join(AllReleased(bs)) == Join(SignedOf(bs))
    decreases |bs|
  {
    if bs == [] {
    } else {
      var last := |bs| - 1;
      var before, b := bs[..last], bs[last];
      assert bs == before + [b];
      hide *;
      LastRecorded(p, signed, bs);
      BlocksAssemble(p, signed, before);
      BlockAssembles(p, signed, last, b);
      IfAssembled(p, signed, last, b);
      AssembleNext(before, b);
    }
  }

  lemma LastRecorded(p: PlPartition, signed: set<seq<byte>>, bs: seq<BlockRun>)
    requires p.Recorded(bs) && Attested(p, signed, bs) && bs != []
    ensures var last := |bs| - 1;
            && p.Recorded(bs[..last]) && Attested(p, signed, bs[..last])
            && (forall k :: 0 <= k < last ==> p.Complete(bs[..last][k]))
            && p.chunkSize > 0 && p.blockSize < U32
            && p.BlockAsPlaced(bs[last], last) && AttestedBlock(p, signed, bs[last])
  {
    hide PlPartition.BlockAsPlaced, PlPartition.Complete, AttestedBlock;
  }

  lemma IfAssembled(p: PlPartition, signed: set<seq<byte>>, k: nat, b: BlockRun)
    requires p.blockSize < U32 && AssembledBlock(p, signed, k, b)
    ensures Join(b.released) <= Join(b.signed)
    ensures p.Complete(b) ==> Join(b.released) == Join(b.signed)
  {
  }

  /** The load itself, of any number of blocks. Whatever memory answers, if signatures were accepted for
      signed blocks only, it assembles signed blocks, and if moreover none can stand in for another,
      or none did, the engine or the PCAP has received what it should of `s`. */
  method SecureLoad(p: PlPartition, ghost n: nat, ghost s: seq<byte>, ghost signed: set<seq<byte>>)
    returns (status: LoadStatus)
    requires p.Valid() && p.Delivered() && p.blocks == [] && p.released == [] && p.trace == []
    requires p.WellPlaced(n) && CutsWell(p.blockSize, p.chunkSize) && |s| == p.acOffset - p.startAddress
    modifies p, p.hashesOfChunks, p.aes, p.aes.secureHdr
    ensures Attested(p, signed, p.blocks) ==> Assembled(p, n, signed, status)
    ensures Attested(p, signed, p.blocks) && NoStandIn(p, n, s, signed) ==> Genuine(p, s)
    ensures Genuine(p, s) ==> Delivers(p, n, s, status)
  {
    assert p.blockSize < U32 && p.chunkSize > 0;
    hide *;
    status := p.SecPlPartition(n);
    if Attested(p, signed, p.blocks) {
      LoadAssembles(p, n, signed, status);
      if NoStandIn(p, n, s, signed) {
        LoadIsPlaced(p, n, s, signed);
      }
    }
    if Genuine(p, s) {
      LoadDelivers(p, n, s, status);
    }
  }

  lemma LoadAssembles(p: PlPartition, n: nat, signed: set<seq<byte>>, status: LoadStatus)
    requires p.Progress() && |p.blocks| <= n && p.DeliveredAs(status) && Attested(p, signed, p.blocks)
    requires status == Loaded ==> |p.blocks| == n && forall k :: 0 <= k < n ==> p.Complete(p.blocks[k])
    ensures Assembled(p, n, signed, status)
  {
    forall k | 0 <= k < |p.blocks| ensures AssembledBlock(p, signed, k, p.blocks[k]) {
      BlockAssembles(p, signed, k, p.blocks[k]);
    }
    BlocksAssemble(p, signed, p.blocks);
    hide AssembledBlock, AttestedBlock, Vetted, AllReleased, FeedAll;
  }

  lemma LoadIsPlaced(p: PlPartition, n: nat, s: seq<byte>, signed: set<seq<byte>>)
    requires p.Progress() && |p.blocks| <= n && Attested(p, signed, p.blocks)
    requires |s| == p.acOffset - p.startAddress && NoStandIn(p, n, s, signed)
    ensures Genuine(p, s)
  {
    forall k | 0 <= k < |p.blocks| ensures GenuineBlock(p, s, k, p.blocks[k]) {
      PlacedByNoStandIn(p, n, s, signed, p.blocks, k);
    }
  }

  lemma LoadDelivers(p: PlPartition, n: nat, s: seq<byte>, status: LoadStatus)
    requires p.Valid() && p.WellPlaced(n) && p.Progress() && |p.blocks| <= n && p.DeliveredAs(status)
    requires status == Loaded ==> |p.blocks| == n && forall k :: 0 <= k < n ==> p.Complete(p.blocks[k])
    requires CutsWell(p.blockSize, p.chunkSize) && Genuine(p, s)
    ensures Delivers(p, n, s, status)
  {
    if status == Loaded {
      LoadedAsItIs(p, n, s);
    }
    hide Genuine, CutsWell, WellFormed, OnePass;
    if !p.isEncrypted {
      ClearLoad(p, n, status, s);
    } else if WellFormed(p.aes.engine, [], true, s) {
      EncryptedLoad(p, n, status, s);
    }
  }

  lemma LoadedAsItIs(p: PlPartition, n: nat, s: seq<byte>)
    requires p.Progress() && |p.blocks| == n && Genuine(p, s) && forall k :: 0 <= k < n ==> p.Complete(p.blocks[k])
    ensures p.blockSize < U32 && forall k :: 0 <= k < n ==> p.TakenLen(k) == p.BlockLen(k)
  {
    forall k | 0 <= k < n ensures p.TakenLen(k) == p.BlockLen(k) {
      BlockFacts(p, s, k);
      SignedAsItIs(p, s, k, p.blocks[k]);
    }
  }

  // ---- The 8-bit block count, at the shipped sizes ----

  /** The loader as it is built, for block sizes 4 MB (`code` 1) and 8 MB (`code` 2). */
  ghost predicate Shipped(p: PlPartition, code: nat) {
    && 1 <= code <= 2
    && p.blockSize == 4 * code * 0x10_0000 && p.chunkSize == READ_BUFFER_SIZE
    && p.noOfHashs == HASH_BUFFER_SIZE / HASH_LEN
  }

  /** The length taken for the last of `n` blocks, if it is not whole. */
  lemma LastLength(p: PlPartition, n: nat, code: nat)
    requires p.WellPlaced(n) && Shipped(p, code) && n > 0 && p.BlockStart(n - 1) + p.blockSize > p.acOffset
    ensures var len := p.BlockLen(n - 1);
            && n <= 1024 / code && 0 < len < p.blockSize
            && p.TakenLen(n - 1) == Wrap(len + 256 * (n / 256) * (AC_SIZE + p.blockSize))
  {
    StartOf(p, n, n - 1);
    var q, bs := n / 256, if code == 1 then 0x40_0000 else 0x80_0000;
    var len := p.acOffset - p.startAddress - (n - 1) * bs;
    assert p.totalLen - (n % 256) * AC_SIZE - (n % 256 - 1) * bs == len + 256 * q * (AC_SIZE + bs);
  }

  /** Every block is taken to have its length if and only if the count serves. */
  lemma CountServesExactly(p: PlPartition, n: nat, code: nat)
    requires p.WellPlaced(n) && Shipped(p, code)
    ensures (forall k :: 0 <= k < n ==> p.TakenLen(k) == p.BlockLen(k)) <==> p.CountServes(n)
  {
    if p.CountServes(n) {
      forall k | 0 <= k < n ensures p.TakenLen(k) == p.BlockLen(k) {
        StartOf(p, n, k);
        p.TakenIsRight(n, k);
      }
    } else {
      p.WholeBlocks(n);
      LastLength(p, n, code);
      WrongLength(code, n / 256, p.BlockLen(n - 1));
    }
  }

  /** What 256 times `q` blocks too many make of a length. */
  lemma WrongLength(code: nat, q: nat, len: nat)
    requires 1 <= code <= 2 && 0 < q <= 4 / code && 0 < len < 4 * code * 0x10_0000
    ensures var bs := 4 * code * 0x10_0000;
            var taken := Wrap(len + 256 * q * (AC_SIZE + bs));
            && taken != len
            && (q < 4 / code ==> taken > 149 * READ_BUFFER_SIZE)
            && (q == 4 / code ==>
                  taken == len + (if code == 1 then 3866624 else 1933312) < 149 * READ_BUFFER_SIZE + len)
  {
  }

  lemma {:induction false} NumChunksBound(len: nat, c: nat, m: nat)
    requires c > 0 && m > 0
    ensures NumChunks(len, c) <= m <==> len <= m * c
    decreases m
  {
    assert m * c == (m - 1) * c + c;
    if len <= c {
      MulMono(1, m, c);
    } else if m > 1 {
      NumChunksBound(len - c, c, m - 1);
    }
  }

  /** A load is refused for want of hash slots if and only if the count is used after it has wrapped,
      but for the one number of blocks at which 32-bit wrap-around makes up for it. */
  lemma RefusedExactly(p: PlPartition, n: nat, code: nat)
    requires p.WellPlaced(n) && Shipped(p, code)
    ensures p.Refused(n) <==> !p.CountServes(n) && n != 1024 / code
  {
    var m := p.noOfHashs;
    assert m == 149;
    forall k: nat | k < n ensures NumChunks(p.TakenLen(k), p.chunkSize) > m <==> p.TakenLen(k) > m * p.chunkSize {
      NumChunksBound(p.TakenLen(k), p.chunkSize, m);
    }
    if p.CountServes(n) {
      CountServesExactly(p, n, code);
    } else {
      p.WholeBlocks(n);
      LastLength(p, n, code);
      WrongLength(code, n / 256, p.BlockLen(n - 1));
      forall k: nat | k < n - 1 ensures p.TakenLen(k) == p.blockSize {
        StartOf(p, n, k);
        MulMono(k + 1, n - 1, p.blockSize);
        StartOf(p, n, n - 1);
      }
      if n == 1024 / code {
        LastOfMost(p, n, code);
      }
    }
  }

  /** With the most blocks that 32 bits have room for, little is left for the last one. */
  lemma LastOfMost(p: PlPartition, n: nat, code: nat)
    requires p.WellPlaced(n) && Shipped(p, code) && n == 1024 / code
    ensures p.BlockLen(n - 1) < if code == 1 then 327680 else 6455296
  {
    StartOf(p, n, n - 1);
  }

  lemma FullLength(p: PlPartition, n: nat, k: nat)
    requires p.WellPlaced(n) && k < n - 1
    ensures p.BlockLen(k) == p.blockSize
  {
    StartOf(p, n, k);
    StartOf(p, n, k + 1);
    hide PlPartition.BlockStart, PlPartition.WellPlaced;
  }

  /** No place has the wrong length that the last one is then taken to have. */
  lemma WrongLengthFitsNoPlace(p: PlPartition, n: nat, code: nat, k: nat)
    requires p.WellPlaced(n) && Shipped(p, code) && !p.CountServes(n) && n == 1024 / code && k < n
    ensures p.BlockLen(k) != p.TakenLen(n - 1)
  {
    p.WholeBlocks(n);
    LastLength(p, n, code);
    LastOfMost(p, n, code);
    var len := p.BlockLen(n - 1);
    assert n / 256 == 4 / code;
    WrongLength(code, n / 256, len);
    if k < n - 1 {
      FullLength(p, n, k);
    }
    assert p.BlockLen(k) == if k < n - 1 then p.blockSize else len;
    hide PlPartition.BlockLen, PlPartition.TakenLen, PlPartition.WellPlaced, PlPartition.CountServes,
         PlPartition.BlockStart, Wrap;
  }

  /** So no block of `s` has been signed for it. */
  lemma WrongLengthUnsigned(p: PlPartition, n: nat, code: nat, s: seq<byte>, b: BlockRun)
    requires p.WellPlaced(n) && Shipped(p, code) && !p.CountServes(n) && n == 1024 / code
    requires |s| == p.acOffset - p.startAddress && p.BlockAsPlaced(b, n - 1)
    requires AttestedBlock(p, BlocksOf(p, n, s), b)
    ensures b.signed == []
  {
    if b.signed != [] {
      JoinReads(b.signed, p.BlockStart(n - 1), p.TakenLen(n - 1), p.chunkSize);
      var k :| 0 <= k < n && Join(b.signed) == BlockOf(p, s, k);
      BlockOfLength(p, s, k);
      hide *;
      WrongLengthFitsNoPlace(p, n, code, k);
    }
  }

  /** The shipped loader and the block count. If the count is used after it has wrapped the load does
      not succeed: it is refused for want of hash slots, or, at one number of blocks, would need a
      signature for bytes that are no block at all. If the count serves, it is never refused for that,
      and reads what it should. */
  method ShippedLoad(p: PlPartition, ghost n: nat, ghost code: nat, ghost s: seq<byte>) returns (status: LoadStatus)
    requires p.Valid() && p.Delivered() && p.blocks == [] && p.released == [] && p.trace == []
    requires p.WellPlaced(n) && Shipped(p, code) && |s| == p.acOffset - p.startAddress
    modifies p, p.hashesOfChunks, p.aes, p.aes.secureHdr
    ensures !p.CountServes(n) && (n != 1024 / code || Attested(p, BlocksOf(p, n, s), p.blocks)) ==> status != Loaded
    ensures p.CountServes(n) ==>
              && status != HashStoreTooSmall
              && (status == Loaded ==>
                    p.trace == LoadReads([], p.startAddress, p.acOffset, p.acOffset, p.blockSize, p.chunkSize))
  {
    assert p.blockSize > 0 && p.chunkSize > 0 && p.blockSize < U32 && code > 0;
    hide *;
    RefusedExactly(p, n, code);
    status := p.SecPlPartition(n);
    if status == Loaded {
      LoadedHasRoom(p, n);
      if Attested(p, BlocksOf(p, n, s), p.blocks) {
        LoadedServes(p, n, code, s);
      }
    }
  }

  lemma LoadedServes(p: PlPartition, n: nat, code: nat, s: seq<byte>)
    requires p.Progress() && |p.blocks| == n && forall k :: 0 <= k < n ==> p.Complete(p.blocks[k])
    requires p.WellPlaced(n) && Shipped(p, code) && |s| == p.acOffset - p.startAddress
    requires Attested(p, BlocksOf(p, n, s), p.blocks)
    ensures n == 1024 / code ==> p.CountServes(n)
  {
    if n == 1024 / code && !p.CountServes(n) {
      assert AttestedBlock(p, BlocksOf(p, n, s), p.blocks[n - 1]);
      WrongLengthUnsigned(p, n, code, s, p.blocks[n - 1]);
    }
  }

  lemma LoadedHasRoom(p: PlPartition, n: nat)
    requires p.Progress() && |p.blocks| == n && forall k :: 0 <= k < n ==> p.Complete(p.blocks[k])
    ensures p.chunkSize > 0 && p.blockSize < U32 && !p.Refused(n)
  {
    forall k: nat | k < n ensures NumChunks(p.TakenLen(k), p.chunkSize) <= p.noOfHashs {
      assert p.BlockAsPlaced(p.blocks[k], k);
    }
  }
}
