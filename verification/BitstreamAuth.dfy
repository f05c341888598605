/**
 The secure bitstream load: every block is hashed and signature-checked chunk by chunk, then read
 again, compared with the stored running hashes, and released to the PCAP or the AES engine.
 Memory is not trusted to return the same bytes twice.
 */
module BitstreamAuth {
  import opened Arith
  import opened Words
  import opened SecureHeaderStream
  import opened ChunkedDecrypt
  import opened BitstreamLayout
  import opened Tiling

  const HASH_LEN: nat := 48

  type Digest = d: seq<byte> | |d| == 48 witness seq(48, _ => 0)

  /** The hash and the two signature checks are arbitrary functions. */
  datatype Crypto = Crypto(hash: seq<byte> -> Digest, spkOk: seq<byte> -> bool, sigOk: (Digest, seq<byte>) -> bool)

  datatype LoadStatus =
    | Loaded
    | NotEnabled
    | CopyFailed
    | HashStoreTooSmall
    | SpkRejected
    | SignatureRejected
    | ChunkHashMismatch
    | PcapFailed
    | Decryption(failure: Status)

  /** What happened to one block: its certificate, the chunks hashed for the signature (once it
      has been accepted), and the chunks released. */
  datatype BlockRun = BlockRun(cert: seq<byte>, signed: seq<seq<byte>>, released: seq<seq<byte>>)

  ghost predicate SignatureHolds(crypto: Crypto, b: BlockRun) {
    && |b.cert| == AC_SIZE
    && crypto.spkOk(b.cert)
    && crypto.sigOk(crypto.hash(Join(b.signed) + b.cert[..AC_SIZE - SIG_SIZE]), b.cert)
  }

  /** The released chunk `i` has the length and the running hash of the signed one. */
  ghost predicate MatchedAt(crypto: Crypto, signed: seq<seq<byte>>, released: seq<seq<byte>>, i: nat)
    requires i < |released| <= |signed|
  {
    && |released[i]| == |signed[i]|
    && crypto.hash(Join(released[..i + 1])) == crypto.hash(Join(signed[..i + 1]))
  }

  ghost predicate HashMatched(crypto: Crypto, signed: seq<seq<byte>>, released: seq<seq<byte>>) {
    && |released| <= |signed|
    && forall i :: 0 <= i < |released| ==> MatchedAt(crypto, signed, released, i)
  }

  ghost predicate Vetted(crypto: Crypto, b: BlockRun) {
    && HashMatched(crypto, b.signed, b.released)
    && (b.signed != [] ==> SignatureHolds(crypto, b))
  }

  /** The chunks are what the reads `rs` returned. */
  ghost predicate ReadAs(chunks: seq<seq<byte>>, rs: seq<Read>) {
    && |chunks| == |rs|
    && forall i :: 0 <= i < |chunks| ==> |chunks[i]| == rs[i].len
  }

  lemma ReadAsNext(chunks: seq<seq<byte>>, rs: seq<Read>, chunk: seq<byte>, addr: nat)
    requires ReadAs(chunks, rs)
    ensures ReadAs(chunks + [chunk], rs + [Read(addr, |chunk|)])
  {
  }

  /** The memory the bitstream is read from: one that holds the same bytes whenever it is read, or one
      that may answer anything. */
  datatype Source = Steady(image: nat -> byte) | Unsteady

  /** The bytes of a range. */
  function Held(image: nat -> byte, r: Read): (bytes: seq<byte>)
    ensures |bytes| == r.len
  {
    seq(r.len, i requires 0 <= i => image(r.addr + i))
  }

  /** If the memory is steady the chunks are the bytes it holds. */
  ghost predicate ServedAs(source: Source, chunks: seq<seq<byte>>, rs: seq<Read>) {
    source.Steady? ==>
      && |chunks| == |rs|
      && forall i :: 0 <= i < |chunks| ==> chunks[i] == Held(source.image, rs[i])
  }

  lemma ServedNext(source: Source, chunks: seq<seq<byte>>, rs: seq<Read>, chunk: seq<byte>, r: Read)
    requires ServedAs(source, chunks, rs) && (source.Steady? ==> chunk == Held(source.image, r))
    ensures ServedAs(source, chunks + [chunk], rs + [r])
  {
    hide Held;
  }

  /** A block cut into the chunks it is read in. */
  ghost function Cut(data: seq<byte>, c: nat): seq<seq<byte>>
    requires c > 0
    decreases |data|
  {
    if |data| <= c then [data] else [data[..c]] + Cut(data[c..], c)
  }

  lemma {:induction false} CutIs(data: seq<byte>, addr: nat, c: nat)
    requires c > 0
    ensures Join(Cut(data, c)) == data && Cut(data, c) != []
    ensures ReadAs(Cut(data, c), ChunkReads(addr, |data|, c))
    decreases |data|
  {
    if |data| <= c {
      assert Cut(data, c)[1..] == [];
    } else {
      CutIs(data[c..], addr + c, c);
      assert Cut(data, c)[1..] == Cut(data[c..], c);
      assert data == data[..c] + data[c..];
    }
  }

  /** The chunks read of a range in steady memory are the range, cut. */
  lemma {:induction false} ServedIsCut(source: Source, chunks: seq<seq<byte>>, addr: nat, len: nat, c: nat)
    requires c > 0 && source.Steady? && ServedAs(source, chunks, ChunkReads(addr, len, c))
    ensures chunks == Cut(Held(source.image, Read(addr, len)), c)
    decreases len
  {
    var rs, all := ChunkReads(addr, len, c), Held(source.image, Read(addr, len));
    assert chunks[0] == Held(source.image, rs[0]);
    if len <= c {
      assert chunks == [chunks[0]];
    } else {
      var rest := Read(addr + c, len - c);
      assert rs[1..] == ChunkReads(addr + c, len - c, c);
      assert ServedAs(source, chunks[1..], rs[1..]);
      ServedIsCut(source, chunks[1..], addr + c, len - c, c);
      assert all[..c] == Held(source.image, rs[0]) && all[c..] == Held(source.image, rest);
      assert chunks == [chunks[0]] + chunks[1..];
    }
  }

  lemma {:induction false} FeedAllPrefix(e: Engine, st: Stream, a: seq<seq<byte>>, b: seq<seq<byte>>)
    requires Proper(st) && FeedAll(e, st, a + b).0 == Success
    ensures FeedAll(e, st, a).0 == Success
    decreases |a|
  {
    if a == [] {
    } else {
      assert (a + b)[0] == a[0] && (a + b)[1..] == a[1..] + b;
      FeedAllPrefix(e, FeedChunk(e, st, a[0]).1, a[1..], b);
    }
  }

  ghost function AllReleased(blocks: seq<BlockRun>): seq<seq<byte>> {
    if blocks == [] then [] else AllReleased(blocks[..|blocks| - 1]) + blocks[|blocks| - 1].released
  }

  lemma {:induction false} JoinAppend(a: seq<seq<byte>>, b: seq<seq<byte>>)
    ensures Join(a + b) == Join(a) + Join(b)
    decreases |a|
  {
    if a == [] {
      assert a + b == b;
    } else {
      assert (a + b)[0] == a[0] && (a + b)[1..] == a[1..] + b;
      JoinAppend(a[1..], b);
    }
  }

  lemma JoinNext(a: seq<seq<byte>>, c: seq<byte>)
    ensures Join(a + [c]) == Join(a) + c
  {
    JoinAppend(a, [c]);
    assert [c][1..] == [];
  }

  lemma {:induction false} FeedAllAppend(e: Engine, st: Stream, a: seq<seq<byte>>, c: seq<byte>)
    requires Proper(st) && FeedAll(e, st, a).0 == Success
    ensures Proper(FeedAll(e, st, a).1)
    ensures FeedAll(e, st, a + [c]) == FeedChunk(e, FeedAll(e, st, a).1, c)
    decreases |a|
  {
    if a == [] {
      assert a + [c] == [c] && [c][1..] == [];
    } else {
      assert (a + [c])[0] == a[0] && (a + [c])[1..] == a[1..] + [c];
      FeedAllAppend(e, FeedChunk(e, st, a[0]).1, a[1..], c);
    }
  }

  /** If the hash does not collide on the two prefixes in question, the released chunks are the
      signed chunks. */
  lemma ReleasedIsSigned(crypto: Crypto, signed: seq<seq<byte>>, released: seq<seq<byte>>)
    requires HashMatched(crypto, signed, released)
    requires var a, r := Join(signed[..|released|]), Join(released);
             crypto.hash(a) == crypto.hash(r) ==> a == r
    ensures released == signed[..|released|]
  {
    var a := signed[..|released|];
    if released != [] {
      assert MatchedAt(crypto, signed, released, |released| - 1);
      assert released[..|released|] == released;
      forall i | 0 <= i < |a| ensures |a[i]| == |released[i]| {
        assert MatchedAt(crypto, signed, released, i);
      }
      SameCuts(a, released);
    }
  }

  lemma {:induction false} SameCuts(a: seq<seq<byte>>, b: seq<seq<byte>>)
    requires |a| == |b| && forall i :: 0 <= i < |a| ==> |a[i]| == |b[i]|
    requires Join(a) == Join(b)
    ensures a == b
    decreases |a|
  {
    if a == [] {
    } else {
      assert Join(a)[..|a[0]|] == a[0] && Join(a)[|a[0]|..] == Join(a[1..]);
      assert Join(b)[..|b[0]|] == b[0] && Join(b)[|b[0]|..] == Join(b[1..]);
      SameCuts(a[1..], b[1..]);
    }
  }

  lemma MatchedNext(crypto: Crypto, signed: seq<seq<byte>>, released: seq<seq<byte>>, chunk: seq<byte>)
    requires HashMatched(crypto, signed, released) && |released| < |signed|
    requires |chunk| == |signed[|released|]|
    requires crypto.hash(Join(released + [chunk])) == crypto.hash(Join(signed[..|released| + 1]))
    ensures HashMatched(crypto, signed, released + [chunk])
  {
    var next := released + [chunk];
    forall i | 0 <= i < |next| ensures MatchedAt(crypto, signed, next, i) {
      if i < |released| {
        assert MatchedAt(crypto, signed, released, i);
        assert next[..i + 1] == released[..i + 1];
      } else {
        assert next[..i + 1] == next;
      }
    }
  }

  /** The state of one secure bitstream load. */
  class PlPartition {
    const crypto: Crypto
    const source: Source
    const startAddress: nat
    const totalLen: nat
    const acOffset: nat
    const blockSize: nat
    const chunkSize: nat
    const noOfHashs: nat
    const isAuthenticated: bool
    const isEncrypted: bool
    const hashesOfChunks: array<byte>
    const aes: Decryptor

    /** Everything read from memory, everything released, and what the PCAP received in clear. */
    var trace: seq<Read>
    var released: seq<seq<byte>>
    var pcap: seq<byte>
    ghost var blocks: seq<BlockRun>

    /** Whether a copy has ever failed. */
    var copyFailed: bool

    ghost predicate Valid()
      reads aes
    {
      && aes.Valid()
      && hashesOfChunks != aes.secureHdr
      && HASH_LEN * noOfHashs <= hashesOfChunks.Length
      && 0 < chunkSize < U32 && Aligned(chunkSize)
    }

    /** The outcome is that of the copies and of the waits for the PCAP. */
    ghost predicate Told(status: LoadStatus)
      reads this`copyFailed, aes`waitFailed
    {
      && (copyFailed <==> status == CopyFailed)
      && (aes.waitFailed <==> status == PcapFailed || status == Decryption(PcapTimeout))
    }

    /** The engine or the PCAP has received exactly the released chunks, in order. */
    ghost predicate Passed()
      reads this`released, this`pcap, aes, aes.secureHdr
    {
      && aes.Valid()
      && (isEncrypted ==> FeedAll(aes.engine, Stream(InHeader(true, []), []), released) == (Success, aes.Abs()))
      && (!isEncrypted ==> pcap == Join(released))
    }

    /** The same, and nothing has failed. */
    ghost predicate Delivered()
      reads this`released, this`pcap, this`copyFailed, aes, aes.secureHdr
    {
      Told(Loaded) && Passed()
    }

    /** The same at the end of a load, for every outcome. */
    ghost predicate DeliveredAs(status: LoadStatus)
      reads this`released, this`pcap, this`copyFailed, aes, aes.secureHdr
    {
      && Told(status)
      && if status.Decryption? then
           var (st, t) := FeedAll(aes.engine, Stream(InHeader(true, []), []), released);
           && isEncrypted && status.failure != Success
           && (st != Overrun ==>
                 && status.failure != Overrun
                 && (status.failure == TagMismatch ==> st == TagMismatch && aes.log == t.log)
                 && (status.failure == PcapTimeout ==> aes.log <= t.log))
         else Passed()
    }

    /** Only a refusal, or bytes that are no bitstream, can end the load. */
    ghost predicate Undisturbed() {
      source.Steady? && aes.pcapSound
    }

    /** The engine takes all these chunks, if they are for the engine. */
    ghost predicate Takes(cs: seq<seq<byte>>) {
      isEncrypted ==> FeedAll(aes.engine, Stream(InHeader(true, []), []), cs).0 == Success
    }

    lemma TakesLess(a: seq<seq<byte>>, b: seq<seq<byte>>)
      requires Takes(a + b)
      ensures Takes(a)
    {
      if isEncrypted {
        FeedAllPrefix(aes.engine, Stream(InHeader(true, []), []), a, b);
      }
    }

    lemma DeliveredIsTaken()
      requires Delivered()
      ensures Takes(released)
    {
    }

    constructor (crypto: Crypto, source: Source, engine: Engine, pcapSound: bool, startAddress: nat, totalLen: nat,
                 acOffset: nat, blockSize: nat, chunkSize: nat, noOfHashs: nat,
                 isAuthenticated: bool, isEncrypted: bool)
      requires 0 < chunkSize < U32 && Aligned(chunkSize)
      ensures Valid() && Delivered() && fresh(aes) && fresh(aes.secureHdr) && fresh(hashesOfChunks)
      ensures blocks == [] && released == [] && trace == []
      ensures this.crypto == crypto && this.source == source && aes.engine == engine && aes.pcapSound == pcapSound
      ensures this.startAddress == startAddress && this.totalLen == totalLen && this.acOffset == acOffset
      ensures this.blockSize == blockSize && this.chunkSize == chunkSize && this.noOfHashs == noOfHashs
      ensures this.isAuthenticated == isAuthenticated && this.isEncrypted == isEncrypted
    {
      this.crypto, this.source := crypto, source;
      this.startAddress, this.totalLen, this.acOffset := startAddress, totalLen, acOffset;
      this.blockSize, this.chunkSize, this.noOfHashs := blockSize, chunkSize, noOfHashs;
      this.isAuthenticated, this.isEncrypted := isAuthenticated, isEncrypted;
      hashesOfChunks := new byte[HASH_LEN * noOfHashs](_ => 0);
      aes := new Decryptor(engine, pcapSound);
      trace, released, pcap, blocks, copyFailed := [], [], [], [], false;
    }

    /** A copy from flash or DDR: unless the memory is steady it may fail, and what it returns may
        differ every time. */
    method CopyData(addr: nat, len: nat) returns (ok: bool, bytes: seq<byte>)
      modifies this`trace, this`copyFailed
      ensures trace == old(trace) + [Read(addr, len)]
      ensures |bytes| == len
      ensures copyFailed <==> old(copyFailed) || !ok
      ensures source.Steady? ==> ok && bytes == Held(source.image, Read(addr, len))
    {
      trace := trace + [Read(addr, len)];
      match source {
        case Steady(image) =>
          ok, bytes := true, Held(image, Read(addr, len));
        case Unsteady =>
          assert |seq(len, _ => 0 as byte)| == len;
          bytes :| |bytes| == len;
          ok := *;
      }
      copyFailed := copyFailed || !ok;
    }

    /** Slot `i` of the hash buffer holds the running hash after chunk `i`. */
    ghost predicate StoredAt(chunks: seq<seq<byte>>, i: nat)
      reads hashesOfChunks
      requires i < |chunks| && HASH_LEN * |chunks| <= hashesOfChunks.Length
    {
      hashesOfChunks[HASH_LEN * i..HASH_LEN * i + HASH_LEN] == crypto.hash(Join(chunks[..i + 1]))
    }

    ghost predicate HashesStored(chunks: seq<seq<byte>>)
      reads hashesOfChunks
    {
      && HASH_LEN * |chunks| <= hashesOfChunks.Length
      && forall i :: 0 <= i < |chunks| ==> StoredAt(chunks, i)
    }

    /** Reads the running hash of the chunks so far into slot `|chunks|`. */
    method StoreHash(ghost chunks: seq<seq<byte>>, at: nat, chunk: seq<byte>, all: seq<byte>)
      requires at == HASH_LEN * |chunks| && at + HASH_LEN <= hashesOfChunks.Length
      requires HashesStored(chunks) && all == Join(chunks + [chunk])
      modifies hashesOfChunks
      ensures HashesStored(chunks + [chunk])
    {
      var d := crypto.hash(all);
      forall j | 0 <= j < HASH_LEN {
        hashesOfChunks[at + j] := d[j];
      }
      ghost var next := chunks + [chunk];
      forall i | 0 <= i < |next| ensures StoredAt(next, i) {
        if i < |chunks| {
          assert old(StoredAt(chunks, i));
          assert next[..i + 1] == chunks[..i + 1];
          assert hashesOfChunks[HASH_LEN * i..HASH_LEN * i + HASH_LEN]
              == old(hashesOfChunks[HASH_LEN * i..HASH_LEN * i + HASH_LEN]);
        } else {
          assert next[..i + 1] == next;
          assert hashesOfChunks[at..at + HASH_LEN] == d;
        }
      }
    }

    /** Reads the next chunk of pass one and stores the running hash that includes it. */
    method HashChunk(offset: nat, len: nat, chunksHash: nat, sha: seq<byte>, ghost chunks: seq<seq<byte>>)
      returns (ok: bool, chunk: seq<byte>, sha': seq<byte>)
      requires chunksHash == HASH_LEN * |chunks| && chunksHash + HASH_LEN <= hashesOfChunks.Length
      requires HashesStored(chunks) && sha == Join(chunks)
      modifies this`trace, this`copyFailed, hashesOfChunks
      ensures trace == old(trace) + [Read(offset, len)] && |chunk| == len
      ensures copyFailed <==> old(copyFailed) || !ok
      ensures ok ==> HashesStored(chunks + [chunk]) && sha' == Join(chunks + [chunk])
      ensures source.Steady? ==> ok && chunk == Held(source.image, Read(offset, len))
    {
      sha' := sha;
      ok, chunk := CopyData(offset, len);
      if ok {
        JoinNext(chunks, chunk);
        sha' := sha + chunk;
        StoreHash(chunks, chunksHash, chunk, sha');
      }
    }

    /** Pass one over a block: hash it chunk by chunk, keep the running hashes, check the signature. */
    method PlSignVer(blockAdrs: nat, blockLen: nat, ac: seq<byte>, noOfChunks: nat)
      returns (status: LoadStatus, ghost chunks: seq<seq<byte>>)
      requires Valid() && |ac| == AC_SIZE
      requires noOfChunks == NumChunks(blockLen, chunkSize) <= noOfHashs
      modifies this`trace, this`copyFailed, hashesOfChunks
      ensures copyFailed <==> old(copyFailed) || status == CopyFailed
      ensures Valid() && (status == Loaded || status == CopyFailed || status == SignatureRejected)
      ensures source.Steady? ==> status != CopyFailed
      ensures status != CopyFailed ==>
                && trace == old(trace) + ChunkReads(blockAdrs, blockLen, chunkSize)
                && ReadAs(chunks, ChunkReads(blockAdrs, blockLen, chunkSize)) && |chunks| == noOfChunks
                && ServedAs(source, chunks, ChunkReads(blockAdrs, blockLen, chunkSize))
                && HashesStored(chunks)
                && (status == Loaded <==> crypto.sigOk(crypto.hash(Join(chunks) + ac[..AC_SIZE - SIG_SIZE]), ac))
    {
      chunks := [];
      ghost var full := ChunkReads(blockAdrs, blockLen, chunkSize);
      assert HashesStored([]) && ReadAs([], full[..0]) && ServedAs(source, [], full[..0]) && Join([]) == [];
      FirstChunk(blockAdrs, blockLen, chunkSize);
      hide StoredAt, HashesStored, ReadAs, ServedAs, Held, Join, AtChunk, ChunkReads, NumChunks, ChunkOffset, Aligned;
      var sha: seq<byte> := [];
      var hashDataLen: nat, len, chunksHash, index := blockLen, chunkSize, 0, 0;
      while index < noOfChunks
        invariant Valid() && index <= noOfChunks == |full| && |chunks| == index && copyFailed == old(copyFailed)
        invariant AtChunk(full, blockAdrs, hashDataLen, chunkSize, index, noOfChunks)
        invariant index < noOfChunks ==> chunksHash == HASH_LEN * index && len == chunkSize
        invariant trace == old(trace) + full[..index] && ReadAs(chunks, full[..index])
        invariant ServedAs(source, chunks, full[..index])
        invariant HashesStored(chunks) && sha == Join(chunks)
      {
        NextChunk(full, blockAdrs, hashDataLen, chunkSize, index, noOfChunks);
        if index == noOfChunks - 1 || hashDataLen < chunkSize {
          len := hashDataLen;
        }
        var offset := ChunkOffset(blockAdrs, chunkSize, index);
        var ok, chunk;
        ok, chunk, sha := HashChunk(offset, len, chunksHash, sha, chunks);
        if !ok {
          return CopyFailed, chunks;
        }
        ReadAsNext(chunks, full[..index], chunk, offset);
        ServedNext(source, chunks, full[..index], chunk, full[index]);
        chunks := chunks + [chunk];
        if index + 1 < noOfChunks {
          hashDataLen := hashDataLen - chunkSize;
          chunksHash := chunksHash + HASH_LEN;
        }
        index := index + 1;
      }
      assert full[..index] == full;
      status := if crypto.sigOk(crypto.hash(sha + ac[..AC_SIZE - SIG_SIZE]), ac) then Loaded else SignatureRejected;
    }

    /** Hands a chunk over to the PCAP, or to the AES engine if the bitstream is encrypted. */
    method ReleaseChunk(chunk: seq<byte>) returns (status: LoadStatus)
      requires Valid() && Delivered() && Aligned(|chunk|)
      modifies this`released, this`pcap, aes, aes.secureHdr
      ensures Valid() && DeliveredAs(status)
      ensures released == old(released) + [chunk]
      ensures status == Loaded || status == PcapFailed || status.Decryption?
      ensures Undisturbed() ==> if Takes(released) then status == Loaded else status.Decryption?
    {
      released := released + [chunk];
      if isEncrypted {
        FeedAllAppend(aes.engine, Stream(InHeader(true, []), []), old(released), chunk);
        var failure := aes.DecryptPlChunks(chunk);
        status := if failure == Success then Loaded else Decryption(failure);
      } else {
        JoinNext(old(released), chunk);
        pcap := pcap + chunk[..4 * (|chunk| / 4)];
        var ok := aes.PcapWaitForDone();
        status := if ok then Loaded else PcapFailed;
      }
    }

    /** What was released so far is what was signed, and the next read returns the next signed chunk. */
    ghost predicate Repeats(signed: seq<seq<byte>>, chunks: seq<seq<byte>>, r: Read)
      requires |chunks| < |signed|
    {
      source.Steady? && chunks == signed[..|chunks|] && signed[|chunks|] == Held(source.image, r)
    }

    lemma RepeatsNext(signed: seq<seq<byte>>, chunks: seq<seq<byte>>, r: Read)
      requires |chunks| < |signed| && Repeats(signed, chunks, r)
      ensures chunks + [Held(source.image, r)] == signed[..|chunks| + 1]
    {
    }

    /** Reads the next chunk of pass two and releases it if its running hash is the stored one. */
    method ReleaseNext(offset: nat, len: nat, hashStored: nat, sha: seq<byte>,
                       ghost signed: seq<seq<byte>>, ghost chunks: seq<seq<byte>>)
      returns (status: LoadStatus, sha': seq<byte>, ghost chunks': seq<seq<byte>>)
      requires Valid() && Delivered() && HashesStored(signed)
      requires |chunks| < |signed| && HashMatched(crypto, signed, chunks) && sha == Join(chunks)
      requires hashStored == HASH_LEN * |chunks| && len == |signed[|chunks|]| && Aligned(len)
      modifies this`trace, this`copyFailed, this`released, this`pcap, aes, aes.secureHdr
      ensures Valid() && DeliveredAs(status)
      ensures status !in {NotEnabled, HashStoreTooSmall, SpkRejected, SignatureRejected}
      ensures trace == old(trace) + [Read(offset, len)]
      ensures HashMatched(crypto, signed, chunks') && |chunks'| <= |chunks| + 1
      ensures chunks <= chunks' && released == old(released) + chunks'[|chunks|..]
      ensures status == Loaded ==> |chunks'| == |chunks| + 1 && sha' == Join(chunks')
      ensures Undisturbed() && Repeats(signed, chunks, Read(offset, len)) ==>
                && chunks' == signed[..|chunks| + 1]
                && if Takes(released) then status == Loaded else status.Decryption?
    {
      chunks', sha' := chunks, sha;
      var ok, chunk := CopyData(offset, len);
      if !ok {
        return CopyFailed, sha', chunks';
      }
      JoinNext(chunks, chunk);
      sha' := sha + chunk;
      if Repeats(signed, chunks, Read(offset, len)) {
        RepeatsNext(signed, chunks, Read(offset, len));
      }
      assert StoredAt(signed, |chunks|);
      if hashesOfChunks[hashStored..hashStored + HASH_LEN] != crypto.hash(sha') {
        return ChunkHashMismatch, sha', chunks';
      }
      MatchedNext(crypto, signed, chunks, chunk);
      chunks' := chunks + [chunk];
      status := ReleaseChunk(chunk);
    }

    /** Success is no other outcome. */
    lemma DeliveredSoFar()
      ensures DeliveredAs(Loaded) <==> Delivered()
    {
    }

    lemma NextToRelease(signed: seq<seq<byte>>, chunks: seq<seq<byte>>, full: seq<Read>, index: nat)
      requires ReadAs(signed, full) && index < |full|
      ensures |signed| == |full| && |signed[index]| == full[index].len
      ensures Undisturbed() && ServedAs(source, signed, full) && |chunks| == index && chunks == signed[..index] ==>
                Repeats(signed, chunks, full[index])
    {
    }

    static lemma ReleasedMore(before: seq<seq<byte>>, was: seq<seq<byte>>, now: seq<seq<byte>>)
      requires was <= now
      ensures before + was + now[|was|..] == before + now
    {
    }

    static lemma NextLeft(left: nat, c: nat)
      requires left < U32 && Aligned(left) && Aligned(c)
      ensures c <= left ==> Wrap(left - c) == left - c && Aligned(left - c)
    {
    }

    lemma NothingReleased(signed: seq<seq<byte>>)
      requires Valid() && Delivered()
      ensures HashMatched(crypto, signed, []) && Join([]) == [] && DeliveredAs(Loaded)
      ensures 0 < chunkSize < U32 && Aligned(chunkSize)
    {
    }

    /** Pass two over a block: read it again and release every chunk whose running hash is the
        stored one, stopping at the first that differs. */
    method ReAuthenticationBlock(address: nat, blockLen: nat, noOfChunks: nat, ghost signed: seq<seq<byte>>)
      returns (status: LoadStatus, ghost chunks: seq<seq<byte>>)
      requires Valid() && Delivered()
      requires blockLen < U32 && Aligned(blockLen) && noOfChunks == NumChunks(blockLen, chunkSize) == |signed|
      requires ReadAs(signed, ChunkReads(address, blockLen, chunkSize)) && HashesStored(signed)
      modifies this`trace, this`copyFailed, this`released, this`pcap, aes, aes.secureHdr
      ensures Valid() && DeliveredAs(status)
      ensures status !in {NotEnabled, HashStoreTooSmall, SpkRejected, SignatureRejected}
      ensures released == old(released) + chunks && HashMatched(crypto, signed, chunks)
      ensures status == Loaded ==>
                |chunks| == |signed| && trace == old(trace) + ChunkReads(address, blockLen, chunkSize)
      ensures Undisturbed() && ServedAs(source, signed, ChunkReads(address, blockLen, chunkSize)) ==>
                if Takes(old(released) + signed) then status == Loaded && chunks == signed else status.Decryption?
    {
      hide *;
      chunks := [];
      status := Loaded;
      NothingReleased(signed);
      ghost var full := ChunkReads(address, blockLen, chunkSize);
      ghost var same := Undisturbed() && ServedAs(source, signed, full);
      FirstChunk(address, blockLen, chunkSize);
      var sha: seq<byte> := [];
      var hashDataLen, len, hashStored, index := blockLen, chunkSize, 0, 0;
      while index < noOfChunks
        invariant Valid() && DeliveredAs(Loaded) && HashesStored(signed) && status == Loaded
        invariant index <= noOfChunks == |full| && |chunks| == index
        invariant index < noOfChunks ==>
                    && 0 <= hashDataLen < U32 && Aligned(hashDataLen)
                    && hashStored == HASH_LEN * index && len == chunkSize
                    && AtChunk(full, address, hashDataLen, chunkSize, index, noOfChunks)
        invariant trace == old(trace) + full[..index] && sha == Join(chunks)
        invariant released == old(released) + chunks && HashMatched(crypto, signed, chunks)
        invariant same ==> chunks == signed[..index]
      {
        NextChunk(full, address, hashDataLen, chunkSize, index, noOfChunks);
        if index == noOfChunks - 1 {
          len := hashDataLen;
        }
        ghost var was := chunks;
        DeliveredSoFar();
        NextToRelease(signed, chunks, full, index);
        var offset := ChunkOffset(address, chunkSize, index);
        status, sha, chunks := ReleaseNext(offset, len, hashStored, sha, signed, chunks);
        ReleasedMore(old(released), was, chunks);
        if status != Loaded {
          if same && Takes(old(released) + signed) {
            TakenPart(old(released), signed, index + 1);
          }
          return;
        }
        NextLeft(hashDataLen, chunkSize);
        hashDataLen := Wrap(hashDataLen - chunkSize);
        if index + 1 <= noOfChunks - 1 {
          hashStored := hashStored + HASH_LEN;
        }
        index := index + 1;
      }
      assert full[..index] == full;
      DeliveredSoFar();
      DeliveredIsTaken();
      assert signed[..noOfChunks] == signed;
    }

    lemma TakenPart(had: seq<seq<byte>>, signed: seq<seq<byte>>, i: nat)
      requires i <= |signed| && Takes(had + signed)
      ensures Takes(had + signed[..i])
    {
      assert had + signed == (had + signed[..i]) + signed[i..];
      TakesLess(had + signed[..i], signed[i..]);
    }

    /** Block data and certificate that get through: there is room for the hashes, and key and
        signature are good. */
    ghost predicate Accepts(data: seq<byte>, cert: seq<byte>)
      requires chunkSize > 0
    {
      && |cert| == AC_SIZE
      && NumChunks(|data|, chunkSize) <= noOfHashs
      && crypto.spkOk(cert)
      && crypto.sigOk(crypto.hash(data + cert[..AC_SIZE - SIG_SIZE]), cert)
    }

    /** What becomes of a block that nothing disturbs: refused before anything of it is released; or
        released, chunk by chunk, as far as the engine takes it. */
    ghost predicate BlockEnds(status: LoadStatus, had: seq<seq<byte>>, now: seq<seq<byte>>, data: seq<byte>,
                              cert: seq<byte>)
      requires chunkSize > 0
    {
      if !Accepts(data, cert) then IsRefusal(status) && now == had
      else
        var all := had + Cut(data, chunkSize);
        if Takes(all) then status == Loaded && now == all else status.Decryption?
    }

    predicate IsRefusal(status: LoadStatus) {
      status == HashStoreTooSmall || status == SpkRejected || status == SignatureRejected
    }

    /** One block: both passes, once there is room for its hashes and the signing key is good. */
    method PlBlockAuthentication(srcAddress: nat, length: nat, cert: seq<byte>)
      returns (status: LoadStatus, ghost run: BlockRun)
      requires Valid() && Delivered() && |cert| == AC_SIZE
      requires length < U32 && Aligned(length)
      modifies this`trace, this`copyFailed, this`released, this`pcap, hashesOfChunks, aes, aes.secureHdr
      ensures Valid() && DeliveredAs(status) && status != NotEnabled
      ensures Vetted(crypto, run) && run.cert == cert && released == old(released) + run.released
      ensures status == HashStoreTooSmall <==> NumChunks(length, chunkSize) > noOfHashs
      ensures status == SpkRejected <==> NumChunks(length, chunkSize) <= noOfHashs && !crypto.spkOk(cert)
      ensures run.signed != [] ==>
                && ReadAs(run.signed, ChunkReads(srcAddress, length, chunkSize))
                && NumChunks(length, chunkSize) <= noOfHashs
      ensures status == Loaded ==>
                && |run.released| == |run.signed| > 0
                && trace == TwoPasses(old(trace), srcAddress, length, chunkSize)
      ensures Undisturbed() ==>
                BlockEnds(status, old(released), released, Held(source.image, Read(srcAddress, length)), cert)
    {
      run := BlockRun(cert, [], []);
      var noOfChunks := 1;
      if length > chunkSize {
        noOfChunks := length / chunkSize;
        if length % chunkSize > 0 {
          noOfChunks := noOfChunks + 1;
        }
      }
      NumChunksIsCeiling(length, chunkSize);
      hide NumChunks, ChunkReads, HashesStored, StoredAt, ReadAs, ServedAs, Held, FeedAll, Passed, Takes, Cut, Aligned;
      if noOfChunks > noOfHashs {
        return HashStoreTooSmall, run;
      }
      if !crypto.spkOk(cert) {
        return SpkRejected, run;
      }
      ghost var signed, chunks;
      status, signed := PlSignVer(srcAddress, length, cert, noOfChunks);
      if Undisturbed() {
        ServedIsCut(source, signed, srcAddress, length, chunkSize);
        CutIs(Held(source.image, Read(srcAddress, length)), srcAddress, chunkSize);
      }
      if status != Loaded {
        return;
      }
      status, chunks := ReAuthenticationBlock(srcAddress, length, noOfChunks, signed);
      run := BlockRun(cert, signed, chunks);
    }

    function BlockStart(k: nat): nat {
      startAddress + k * blockSize
    }

    function BlockLen(k: nat): nat {
      if BlockStart(k) >= acOffset then 0 else Min(blockSize, acOffset - BlockStart(k))
    }

    /** The length the loader takes block `k` to have. It counts blocks from 1, in 8 bits, and uses
        the count only for a block that reaches past the data. */
    ghost function TakenLen(k: nat): u32
      requires blockSize < U32
    {
      if BlockStart(k) + blockSize > acOffset then LastBlockLen(totalLen, (k + 1) % 256, blockSize) else blockSize
    }

    /** The certificate of block `k`, and its data as far as it is taken to go, in steady memory. */
    ghost function CertHeld(image: nat -> byte, k: nat): seq<byte> {
      Held(image, Read(acOffset + k * AC_SIZE, AC_SIZE))
    }

    ghost function BlockHeld(image: nat -> byte, k: nat): seq<byte>
      requires blockSize < U32
    {
      Held(image, Read(BlockStart(k), TakenLen(k)))
    }

    ghost function DataHeld(image: nat -> byte, m: nat): seq<byte>
      requires blockSize < U32
    {
      if m == 0 then [] else DataHeld(image, m - 1) + BlockHeld(image, m - 1)
    }

    ghost predicate AcceptsBlock(image: nat -> byte, k: nat)
      requires chunkSize > 0 && blockSize < U32
    {
      Accepts(BlockHeld(image, k), CertHeld(image, k))
    }

    /** Of `n` blocks, the first `m` get through and the next one, if any, does not. */
    ghost predicate Stops(image: nat -> byte, n: nat, m: nat)
      requires chunkSize > 0 && blockSize < U32
    {
      && m <= n
      && (forall k: nat :: k < m ==> AcceptsBlock(image, k))
      && (m < n ==> !AcceptsBlock(image, m))
    }

    /** The chunks of the first `m` blocks. */
    ghost function ChunksHeld(image: nat -> byte, m: nat): seq<seq<byte>>
      requires chunkSize > 0 && blockSize < U32
    {
      if m == 0 then [] else ChunksHeld(image, m - 1) + Cut(BlockHeld(image, m - 1), chunkSize)
    }

    lemma {:induction false} ChunksHeldJoin(image: nat -> byte, m: nat)
      requires chunkSize > 0 && blockSize < U32
      ensures Join(ChunksHeld(image, m)) == DataHeld(image, m)
      decreases m
    {
      if m == 0 {
      } else {
        ChunksHeldJoin(image, m - 1);
        CutIs(BlockHeld(image, m - 1), 0, chunkSize);
        JoinAppend(ChunksHeld(image, m - 1), Cut(BlockHeld(image, m - 1), chunkSize));
      }
    }

    lemma {:induction false} ChunksHeldGrow(image: nat -> byte, k: nat, m: nat)
      requires chunkSize > 0 && blockSize < U32 && k <= m && Takes(ChunksHeld(image, m))
      ensures Takes(ChunksHeld(image, k))
      decreases m
    {
      if k == m {
      } else {
        hide Takes, Cut, BlockHeld;
        TakesLess(ChunksHeld(image, m - 1), Cut(BlockHeld(image, m - 1), chunkSize));
        ChunksHeldGrow(image, k, m - 1);
      }
    }

    /** The first `m` blocks have got through, and just they have been released. */
    ghost predicate Through(image: nat -> byte, had: seq<seq<byte>>, m: nat)
      requires chunkSize > 0 && blockSize < U32
    {
      && (forall k: nat :: k < m ==> AcceptsBlock(image, k))
      && had == ChunksHeld(image, m)
    }

    /** So far a load that nothing disturbs has come. */
    ghost predicate SteadyTo(m: nat)
      reads this`released
    {
      && chunkSize > 0 && blockSize < U32
      && (Undisturbed() ==> Through(source.image, released, m))
    }

    /** The end of such a load of `n` blocks, of which the first `m` are accepted. */
    ghost predicate EndsAt(status: LoadStatus, n: nat, m: nat, all: seq<seq<byte>>)
      reads this`released
    {
      if Takes(all) then
        && (status == Loaded <==> m == n)
        && (m < n ==> IsRefusal(status))
        && released == all
      else status.Decryption?
    }

    /** How such a load ends: with the first block that is not accepted, or with bytes that the engine
        does not take, or well. */
    ghost predicate SteadyEnd(n: nat, status: LoadStatus)
      reads this`released
    {
      && chunkSize > 0 && blockSize < U32
      && (Undisturbed() && isAuthenticated ==>
            forall m: nat :: Stops(source.image, n, m) ==> EndsAt(status, n, m, ChunksHeld(source.image, m)))
    }

    lemma SteadyDone(n: nat)
      requires SteadyTo(n) && Delivered()
      ensures SteadyEnd(n, Loaded)
    {
      DeliveredIsTaken();
      hide AcceptsBlock, ChunksHeld, Delivered, Takes;
    }

    /** A load that has come to block `k` and does not get through it. */
    lemma SteadyStops(n: nat, k: nat, had: seq<seq<byte>>, status: LoadStatus)
      requires chunkSize > 0 && blockSize < U32 && k < n && status != Loaded
      requires Undisturbed() ==>
                 && Through(source.image, had, k) && Takes(had)
                 && BlockEnds(status, had, released, BlockHeld(source.image, k), CertHeld(source.image, k))
      ensures SteadyEnd(n, status)
    {
      hide Accepts, Takes, Cut, BlockHeld, CertHeld, IsRefusal;
      if Undisturbed() {
        var image := source.image;
        assert AcceptsBlock(image, k) <==> Accepts(BlockHeld(image, k), CertHeld(image, k));
        assert ChunksHeld(image, k + 1) == ChunksHeld(image, k) + Cut(BlockHeld(image, k), chunkSize);
        hide AcceptsBlock, ChunksHeld;
        forall m: nat | Stops(image, n, m) ensures EndsAt(status, n, m, ChunksHeld(image, m)) {
          if AcceptsBlock(image, k) && Takes(ChunksHeld(image, m)) {
            ChunksHeldGrow(image, k + 1, m);
          }
        }
      }
    }

    /** What the record of block `k` promises, whatever the outcome. */
    ghost predicate BlockAsPlaced(b: BlockRun, k: nat)
      requires chunkSize > 0 && blockSize < U32
    {
      && |b.cert| == AC_SIZE && Vetted(crypto, b)
      && (b.signed != [] ==>
            && ReadAs(b.signed, ChunkReads(BlockStart(k), TakenLen(k), chunkSize))
            && NumChunks(TakenLen(k), chunkSize) <= noOfHashs)
    }

    ghost predicate Complete(b: BlockRun) {
      |b.released| == |b.signed| > 0
    }

    /** The bitstream the loader is given, in `n` blocks. */
    ghost predicate WellPlaced(n: nat) {
      && Placed(startAddress, acOffset, totalLen, blockSize, n)
      && blockSize < U32 && Aligned(blockSize) && Aligned(acOffset - startAddress)
    }

    /** What the records `bs` of a load promise: every block is as placed, and all but the last are
        complete. */
    ghost predicate Recorded(bs: seq<BlockRun>) {
      && chunkSize > 0 && blockSize < U32
      && (forall k :: 0 <= k < |bs| ==> BlockAsPlaced(bs[k], k))
      && (forall k :: 0 <= k < |bs| - 1 ==> Complete(bs[k]))
    }

    ghost predicate Progress()
      reads this`released, this`blocks
    {
      released == AllReleased(blocks) && Recorded(blocks)
    }

    lemma BlockShape(n: nat, k: nat)
      requires WellPlaced(n) && BlockStart(k) < acOffset
      ensures k < n && BlockStart(k + 1) == BlockStart(k) + blockSize
      ensures BlockLen(k) == Min(blockSize, acOffset - BlockStart(k)) < U32
      ensures BlockStart(k) + blockSize > acOffset ==>
                LastBlockLen(totalLen, k + 1, blockSize) == BlockLen(k) && k + 1 == n
      ensures BlockStart(k) + blockSize <= acOffset ==> BlockLen(k) == blockSize
      ensures BlockStart(k + 1) >= acOffset ==> k + 1 == n
    {
      hide LastBlockLen, Aligned, Wrap;
      LastBlock(startAddress, acOffset, totalLen, blockSize, n, k + 1);
    }

    /** The count has not wrapped when it is used: there are at most 255 blocks, or the last one is
        whole, so that it is not used at all. */
    ghost predicate CountServes(n: nat)
      requires blockSize > 0
    {
      n <= 255 || (acOffset - startAddress) % blockSize == 0
    }

    /** Then every block is taken to have the length it has. */
    lemma TakenIsRight(n: nat, k: nat)
      requires WellPlaced(n) && BlockStart(k) < acOffset && CountServes(n)
      ensures TakenLen(k) == BlockLen(k)
    {
      BlockShape(n, k);
      if BlockStart(k) + blockSize > acOffset && n > 255 {
        WholeBlocks(n);
      }
      hide LastBlockLen;
    }

    /** The data is whole blocks exactly if the last one does not reach past it. */
    lemma WholeBlocks(n: nat)
      requires WellPlaced(n) && n > 0
      ensures (acOffset - startAddress) % blockSize == 0 <==> BlockStart(n - 1) + blockSize <= acOffset
    {
      var data := acOffset - startAddress;
      var rest := data - (n - 1) * blockSize;
      assert n * blockSize == (n - 1) * blockSize + blockSize;
      if rest == blockSize {
        DivUnique(data, blockSize, n, 0);
      } else {
        DivUnique(data, blockSize, n - 1, rest);
      }
    }

    lemma TakenAligned(n: nat, k: nat)
      requires WellPlaced(n)
      ensures Aligned(TakenLen(k))
    {
      LengthAligned(acOffset - startAddress, n, (k + 1) % 256);
    }

    lemma LengthAligned(data: nat, n: nat, index: nat)
      requires Aligned(data) && Aligned(blockSize)
      ensures Aligned(Wrap(data + n * AC_SIZE - index * AC_SIZE - (index - 1) * blockSize))
    {
      AlignedMul(index, blockSize);
      hide Wrap;
      var x := data + n * AC_SIZE - index * AC_SIZE - (index - 1) * blockSize;
      assert (index - 1) * blockSize == index * blockSize - blockSize;
      WrapAligned(x);
    }

    lemma NextBlock(before: seq<BlockRun>, run: BlockRun)
      requires chunkSize > 0 && blockSize < U32
      requires forall k :: 0 <= k < |before| ==> BlockAsPlaced(before[k], k) && Complete(before[k])
      requires released == AllReleased(before) + run.released
      requires blocks == before + [run] && BlockAsPlaced(run, |before|)
      ensures Progress()
    {
      AllReleasedAppend(before, run);
      hide AllReleased, BlockAsPlaced, Complete;
    }

    static lemma AllReleasedAppend(before: seq<BlockRun>, run: BlockRun)
      ensures AllReleased(before + [run]) == AllReleased(before) + run.released
    {
      assert (before + [run])[..|before|] == before;
    }

    /** The data of the next block, its certificate having been read. */
    method LoadData(srcAddress: nat, len: nat, cert: seq<byte>) returns (status: LoadStatus)
      requires Valid() && Delivered() && Progress()
      requires forall k :: 0 <= k < |blocks| ==> Complete(blocks[k])
      requires srcAddress == BlockStart(|blocks|) && len == TakenLen(|blocks|) && Aligned(len) && |cert| == AC_SIZE
      modifies this`trace, this`copyFailed, this`released, this`pcap, this`blocks, hashesOfChunks, aes, aes.secureHdr
      ensures Valid() && DeliveredAs(status) && Progress() && status != NotEnabled
      ensures old(blocks) <= blocks && |blocks| == |old(blocks)| + 1
      ensures status == Loaded ==>
                && Complete(blocks[|old(blocks)|])
                && trace == TwoPasses(old(trace), srcAddress, len, chunkSize)
      ensures status == HashStoreTooSmall ==> NumChunks(len, chunkSize) > noOfHashs
      ensures Undisturbed() ==>
                BlockEnds(status, old(released), released, Held(source.image, Read(srcAddress, len)), cert)
    {
      hide ChunkReads, TwoPasses, Held, Join, BlockEnds, Delivered, FeedAll, Vetted, AllReleased, ReadAs,
           Aligned, BlockStart, TakenLen, DeliveredAs, NumChunks;
      ghost var before := blocks;
      ghost var run;
      status, run := PlBlockAuthentication(srcAddress, len, cert);
      blocks := blocks + [run];
      NextBlock(before, run);
    }

    method ReadCert(certOffset: nat) returns (ok: bool, cert: seq<byte>)
      requires Valid() && Delivered() && Progress()
      modifies this`trace, this`copyFailed
      ensures Valid() && Progress() && (ok ==> Delivered()) && (!ok ==> DeliveredAs(CopyFailed))
      ensures trace == old(trace) + [Read(certOffset, AC_SIZE)] && |cert| == AC_SIZE
      ensures source.Steady? ==> ok && cert == Held(source.image, Read(certOffset, AC_SIZE))
    {
      hide Passed, Progress, Held;
      ok, cert := CopyData(certOffset, AC_SIZE);
    }

    /** The next block, counted from 1 in 8 bits: its certificate, then its data. */
    method LoadBlock(index: nat, srcAddress: nat, certOffset: nat, ghost n: nat)
      returns (status: LoadStatus, isLastBlock: bool)
      requires Valid() && Delivered() && WellPlaced(n) && Progress()
      requires forall k :: 0 <= k < |blocks| ==> Complete(blocks[k])
      requires srcAddress == BlockStart(|blocks|) < acOffset && index == (|blocks| + 1) % 256
      modifies this`trace, this`copyFailed, this`released, this`pcap, this`blocks, hashesOfChunks, aes, aes.secureHdr
      ensures Valid() && DeliveredAs(status) && Progress() && status != NotEnabled
      ensures old(blocks) <= blocks && |blocks| <= |old(blocks)| + 1
      ensures status == Loaded ==>
                && |blocks| == |old(blocks)| + 1 && Complete(blocks[|old(blocks)|])
                && trace == BlockReads(old(trace), certOffset, srcAddress, TakenLen(|old(blocks)|), chunkSize)
      ensures status == HashStoreTooSmall ==> NumChunks(TakenLen(|old(blocks)|), chunkSize) > noOfHashs
      ensures Undisturbed() && certOffset == acOffset + |old(blocks)| * AC_SIZE ==>
                var k := |old(blocks)|;
                BlockEnds(status, old(released), released, BlockHeld(source.image, k), CertHeld(source.image, k))
      ensures isLastBlock <==> srcAddress + blockSize > acOffset
    {
      isLastBlock := srcAddress + blockSize > acOffset;
      TakenAligned(n, |blocks|);
      var len := blockSize;
      if isLastBlock {
        len := LastBlockLen(totalLen, index, blockSize);
      }
      assert len == TakenLen(|blocks|);
      assert TwoPasses(trace + [Read(certOffset, AC_SIZE)], srcAddress, len, chunkSize)
          == BlockReads(trace, certOffset, srcAddress, len, chunkSize);
      hide ChunkReads, TwoPasses, BlockReads, Held, Join, BlockEnds, Passed, Delivered, FeedAll, Vetted, AllReleased,
           ReadAs, Aligned, BlockStart, LastBlockLen, DeliveredAs, Progress, Complete, NumChunks, TakenLen, WellPlaced;
      var ok, cert := ReadCert(certOffset);
      if !ok {
        return CopyFailed, isLastBlock;
      }
      status := LoadData(srcAddress, len, cert);
    }

    /** Every block before `src` has been loaded; the next one is `src`. As long as the count serves
        the reads so far are those prescribed. */
    ghost predicate LoadedTo(n: nat, src: nat, cert: nat, index: nat)
      reads this, aes, aes.secureHdr
      requires chunkSize > 0 && blockSize > 0
    {
      && Delivered() && Progress()
      && |blocks| <= n && src == BlockStart(|blocks|) && index == (|blocks| + 1) % 256
      && cert == acOffset + |blocks| * AC_SIZE && SteadyTo(|blocks|)
      && (src >= acOffset ==> |blocks| == n)
      && (forall k :: 0 <= k < |blocks| ==> Complete(blocks[k]))
      && (CountServes(n) ==>
            LoadReads([], startAddress, acOffset, acOffset, blockSize, chunkSize)
            == LoadReads(trace, src, cert, acOffset, blockSize, chunkSize))
    }

    /** The next block. */
    method LoadNext(index: nat, srcAddress: nat, certOffset: nat, ghost n: nat)
      returns (status: LoadStatus, isLastBlock: bool)
      requires Valid() && WellPlaced(n) && srcAddress < acOffset && LoadedTo(n, srcAddress, certOffset, index)
      modifies this`trace, this`copyFailed, this`released, this`pcap, this`blocks, hashesOfChunks, aes, aes.secureHdr
      ensures Valid() && DeliveredAs(status) && Progress() && |blocks| <= n && status != NotEnabled
      ensures status == Loaded ==> LoadedTo(n, srcAddress + blockSize, certOffset + AC_SIZE, (index + 1) % 256)
      ensures status == HashStoreTooSmall ==> Refused(n)
      ensures status != Loaded ==> SteadyEnd(n, status)
      ensures isLastBlock <==> srcAddress + blockSize > acOffset
    {
      ghost var was, done := blocks, trace;
      BlockShape(n, |was|);
      ghost var had := released;
      assert SteadyTo(|was|) && |was| < n && chunkSize > 0 && blockSize > 0;
      assert certOffset == acOffset + |was| * AC_SIZE;
      assert CountServes(n) ==>
          LoadReads([], startAddress, acOffset, acOffset, blockSize, chunkSize)
          == LoadReads(done, srcAddress, certOffset, acOffset, blockSize, chunkSize);
      DeliveredIsTaken();
      hide ChunkReads, LoadReads, BlockReads, Delivered, FeedAll, Progress, WellPlaced, BlockStart, BlockLen, TakenLen,
           Min, Complete, CountServes, NumChunks, Join, BlockEnds, BlockHeld, CertHeld, Through, Takes, Undisturbed;
      status, isLastBlock := LoadBlock(index, srcAddress, certOffset, n);
      hide *;
      if status == Loaded {
        SteadyNext(had, |was|);
        DeliveredSoFar();
        LoadedNext(n, was, done, srcAddress, certOffset, index);
      } else {
        SteadyStops(n, |was|, had, status);
        if status == HashStoreTooSmall {
          RefusedAt(n, |was|);
        }
      }
    }

    /** One more block. */
    lemma SteadyNext(had: seq<seq<byte>>, k: nat)
      requires chunkSize > 0 && blockSize < U32
      requires Undisturbed() ==>
                 && Through(source.image, had, k)
                 && BlockEnds(Loaded, had, released, BlockHeld(source.image, k), CertHeld(source.image, k))
      ensures SteadyTo(k + 1)
    {
      if Undisturbed() {
        var image := source.image;
        assert AcceptsBlock(image, k) <==> Accepts(BlockHeld(image, k), CertHeld(image, k));
        assert ChunksHeld(image, k + 1) == ChunksHeld(image, k) + Cut(BlockHeld(image, k), chunkSize);
        hide AcceptsBlock, Accepts, ChunksHeld, Takes, Cut, BlockHeld, CertHeld;
      }
    }

    lemma RefusedAt(n: nat, k: nat)
      requires chunkSize > 0 && blockSize < U32 && k < n && NumChunks(TakenLen(k), chunkSize) > noOfHashs
      ensures Refused(n)
    {
    }

    lemma LoadedNext(n: nat, was: seq<BlockRun>, done: seq<Read>, src: nat, cert: nat, index: nat)
      requires WellPlaced(n) && chunkSize > 0 && Delivered() && Progress()
      requires src == BlockStart(|was|) < acOffset && index == (|was| + 1) % 256
      requires forall k :: 0 <= k < |was| ==> Complete(was[k])
      requires CountServes(n) ==>
                 LoadReads([], startAddress, acOffset, acOffset, blockSize, chunkSize)
                 == LoadReads(done, src, cert, acOffset, blockSize, chunkSize)
      requires was <= blocks && |blocks| == |was| + 1 && Complete(blocks[|was|])
      requires trace == BlockReads(done, cert, src, TakenLen(|was|), chunkSize)
      requires cert == acOffset + |was| * AC_SIZE && SteadyTo(|blocks|)
      ensures LoadedTo(n, src + blockSize, cert + AC_SIZE, (index + 1) % 256)
    {
      BlockShape(n, |was|);
      ReadsNext(n, |was|, done, src, cert);
      NextIndex(|was| + 1);
      hide LoadReads, BlockReads, Delivered, Progress, TakenLen, Complete, CountServes, WellPlaced, BlockStart,
           BlockLen, LastBlockLen, Min, SteadyTo;
    }

    lemma ReadsNext(n: nat, k: nat, done: seq<Read>, src: nat, cert: nat)
      requires WellPlaced(n) && chunkSize > 0 && src == BlockStart(k) < acOffset
      ensures CountServes(n) ==>
                LoadReads(BlockReads(done, cert, src, TakenLen(k), chunkSize), src + blockSize, cert + AC_SIZE,
                          acOffset, blockSize, chunkSize)
                == LoadReads(done, src, cert, acOffset, blockSize, chunkSize)
    {
      if CountServes(n) {
        TakenIsRight(n, k);
        hide TakenLen, LoadReads, BlockReads, BlockStart;
        LoadReadsStep(done, src, cert, acOffset, blockSize, chunkSize);
      }
    }

    static lemma NextIndex(i: nat)
      ensures (i % 256 + 1) % 256 == (i + 1) % 256
    {
    }

    /** Some block is taken to need more hashes than there is room for. */
    ghost predicate Refused(n: nat)
      requires chunkSize > 0 && blockSize < U32
    {
      exists k: nat :: k < n && NumChunks(TakenLen(k), chunkSize) > noOfHashs
    }

    /** How a load of `n` blocks ends. */
    ghost predicate Ended(n: nat, status: LoadStatus)
      reads this, aes, aes.secureHdr
      requires chunkSize > 0 && blockSize > 0
    {
      && DeliveredAs(status) && Progress() && |blocks| <= n && status != NotEnabled
      && (status == Loaded ==>
            && |blocks| == n
            && (forall k :: 0 <= k < n ==> Complete(blocks[k]))
            && (CountServes(n) ==> trace == LoadReads([], startAddress, acOffset, acOffset, blockSize, chunkSize)))
      && (status == HashStoreTooSmall ==> Refused(n))
      && SteadyEnd(n, status)
    }

    /** The blocks in turn. */
    method LoadBlocks(ghost n: nat) returns (status: LoadStatus)
      requires Valid() && WellPlaced(n) && chunkSize > 0 && 0 < blockSize < U32
      requires LoadedTo(n, startAddress, acOffset, 1)
      modifies this`trace, this`copyFailed, this`released, this`pcap, this`blocks, hashesOfChunks, aes, aes.secureHdr
      ensures Valid() && Ended(n, status)
    {
      hide *;
      var srcAddress: nat, currentAcOffset: nat, index: nat := startAddress, acOffset, 1;
      ghost var next: nat, nextAc: nat, nextIndex: nat := srcAddress, currentAcOffset, index;
      while srcAddress < acOffset
        invariant Valid() && LoadedTo(n, srcAddress, currentAcOffset, index)
        invariant next == srcAddress && nextAc == currentAcOffset && nextIndex == index
        decreases acOffset - srcAddress
      {
        var isLastBlock;
        status, isLastBlock := LoadNext(index, srcAddress, currentAcOffset, n);
        if status != Loaded {
          Unfinished(n, status);
          return;
        }
        next, nextAc, nextIndex := next + blockSize, nextAc + AC_SIZE, (nextIndex + 1) % 256;
        if isLastBlock {
          break;
        }
        currentAcOffset := currentAcOffset + AC_SIZE;
        srcAddress := srcAddress + blockSize;
        index := (index + 1) % 256;
      }
      LoadedAll(n, next, nextAc, nextIndex);
      return Loaded;
    }

    lemma Unfinished(n: nat, status: LoadStatus)
      requires chunkSize > 0 && blockSize > 0 && status != Loaded
      requires DeliveredAs(status) && Progress() && |blocks| <= n && status != NotEnabled && SteadyEnd(n, status)
      requires blockSize < U32 && (status == HashStoreTooSmall ==> Refused(n))
      ensures Ended(n, status)
    {
    }

    /** The whole load of `n` blocks, however many. A load succeeds only with every block complete;
        its reads are those prescribed if the block count serves. */
    method SecPlPartition(ghost n: nat) returns (status: LoadStatus)
      requires Valid() && Delivered() && blocks == [] && released == [] && trace == []
      requires WellPlaced(n)
      modifies this, hashesOfChunks, aes, aes.secureHdr
      ensures Valid() && DeliveredAs(status) && Progress() && |blocks| <= n
      ensures status == NotEnabled <==> !isAuthenticated
      ensures status == Loaded ==>
                && isAuthenticated && |blocks| == n
                && (forall k :: 0 <= k < n ==> Complete(blocks[k]))
                && (CountServes(n) ==> trace == LoadReads([], startAddress, acOffset, acOffset, blockSize, chunkSize))
      ensures status == HashStoreTooSmall ==> Refused(n)
      ensures SteadyEnd(n, status)
    {
      NothingLoaded(n);
      LoadStarts(n);
      hide Valid, Delivered, DeliveredAs, Progress, SteadyEnd, Complete, CountServes, LoadReads, Refused, WellPlaced,
           LoadedTo;
      if !isAuthenticated {
        return NotEnabled;
      }
      status := LoadBlocks(n);
    }

    lemma NothingLoaded(n: nat)
      requires Valid() && Delivered() && WellPlaced(n) && blocks == [] && released == []
      ensures DeliveredAs(NotEnabled) && Progress() && (!isAuthenticated ==> SteadyEnd(n, NotEnabled))
    {
      hide Passed, Stops, ChunksHeld;
    }

    lemma LoadStarts(n: nat)
      requires Valid() && Delivered() && WellPlaced(n) && blocks == [] && released == [] && trace == []
      ensures blockSize > 0 && LoadedTo(n, startAddress, acOffset, 1)
    {
      assert BlockStart(0) == startAddress;
      hide LoadReads;
    }

    lemma LoadedAll(n: nat, src: nat, cert: nat, index: nat)
      requires chunkSize > 0 && blockSize > 0 && src >= acOffset && LoadedTo(n, src, cert, index)
      ensures Ended(n, Loaded)
    {
      SteadyDone(n);
    }
  }
}
