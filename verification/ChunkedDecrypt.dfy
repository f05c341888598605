/**
 Feeding the encrypted bitstream to the AES engine chunk by chunk, with the position inside the
 stream carried from one chunk to the next.
 */
module ChunkedDecrypt {
  import opened Words
  import opened SecureHeaderStream

  /** `Overrun` is not an error code of the program: it marks the calls on which the program has read
      past the end of the chunk, had a good tag, and goes on with a remaining size that has wrapped. */
  datatype Status = Success | TagMismatch | PcapTimeout | Overrun

  ghost predicate EndsAtFirstHeader(e: Engine, st: Stream, chunk: seq<byte>) {
    && st.phase.InHeader? && st.phase.first && st.phase.got == []
    && |chunk| > AES_TAG_SIZE
    && AcceptHeader(e, st.log, true, chunk[..AES_TAG_SIZE]).phase.Finished?
  }

  /** The chunk ends before the header it must complete does. */
  ghost predicate Short(e: Engine, st: Stream, chunk: seq<byte>)
    requires Proper(st)
  {
    && st.phase.InHeader?
    && !(chunk == [] && !st.phase.first && st.phase.got == [])
    && (|chunk| < AES_TAG_SIZE - |st.phase.got|
        || (EndsAtFirstHeader(e, st, chunk) && |chunk| < 2 * AES_TAG_SIZE))
  }

  /** The engine has been given, and has refused, the header that the reading `u` of a chunk was in
      the middle of, completed with whatever lies behind the chunk. */
  ghost predicate RefusedPastEnd(e: Engine, u: Stream, log: seq<Beat>) {
    && u.phase.InHeader?
    && !e.tagOk(log)
    && exists raw :: PushedHeader(u, raw, log)
  }

  ghost predicate PushedHeader(u: Stream, raw: seq<byte>, log: seq<Beat>)
    requires u.phase.InHeader?
  {
    && |raw| == AES_TAG_SIZE && u.phase.got <= raw
    && log == u.log + [SecureHeader(u.phase.first, raw[..HDR_SIZE], raw[HDR_SIZE..])]
  }

  lemma WasRefused(e: Engine, u: Stream, raw: seq<byte>, log: seq<Beat>)
    requires u.phase.InHeader? && !e.tagOk(log) && PushedHeader(u, raw, log)
    ensures RefusedPastEnd(e, u, log)
  {
  }

  /** A finished stream leaves the parser waiting for a first header again. */
  function Rearm(st: Stream): Stream {
    if st.phase.Finished? then Stream(InHeader(true, []), st.log) else st
  }

  ghost function FeedChunk(e: Engine, st: Stream, chunk: seq<byte>): (r: (Status, Stream))
    requires Proper(st)
    ensures Proper(r.1)
  {
    if Short(e, st, chunk) then (Overrun, st)
    else
      var t := Fold(e, st, chunk);
      if t.phase.Rejected? then (TagMismatch, t) else (Success, Rearm(t))
  }

  ghost function FeedAll(e: Engine, st: Stream, chunks: seq<seq<byte>>): (Status, Stream)
    requires Proper(st)
    decreases |chunks|
  {
    if chunks == [] then (Success, st)
    else
      var (status, next) := FeedChunk(e, st, chunks[0]);
      if status == Success then FeedAll(e, next, chunks[1..]) else (status, next)
  }

  function Join(chunks: seq<seq<byte>>): seq<byte> {
    if chunks == [] then [] else chunks[0] + Join(chunks[1..])
  }

  /** Chunks the parser can take: all but the last at least one header and tag long; the last
      as well, unless it ends the stream. */
  ghost predicate LongEnough(chunks: seq<seq<byte>>, ending: bool) {
    forall i :: 0 <= i < |chunks| ==>
      |chunks[i]| >= if ending && i == |chunks| - 1 then 1 else AES_TAG_SIZE
  }

  /** Strictly inside a well-formed stream the reading is neither finished nor refused, and a
      header that has begun still fits in what is left. */
  lemma {:induction false} InsideStream(e: Engine, log: seq<Beat>, first: bool, s: seq<byte>, k: nat)
    requires WellFormed(e, log, first, s)
    requires k < |s|
    ensures var st := Fold(e, Stream(InHeader(first, []), log), s[..k]);
            && !st.phase.Finished? && !st.phase.Rejected?
            && (st.phase.InHeader? ==> |st.phase.got| + (|s| - k) >= AES_TAG_SIZE)
            && (st.phase.InHeader? && st.phase.first ==> first && |st.phase.got| == k)
    decreases |s|
  {
    if k < AES_TAG_SIZE {
      FoldHeader(e, Stream(InHeader(first, []), log), s[..k]);
      assert [] + s[..k] == s[..k];
    } else {
      FirstBlock(e, log, first, s, k);
      var st := AcceptHeader(e, log, first, s[..AES_TAG_SIZE]);
      var n := AES_TAG_SIZE + st.phase.left;
      if n <= k {
        var log', tail := st.log + DataBeats(s[AES_TAG_SIZE..n]), s[n..];
        assert s[n..k] == tail[..k - n];
        InsideStream(e, log', false, tail, k - n);
        NoFirstHeaderLater(e, Stream(InHeader(false, []), log'), tail[..k - n]);
      }
    }
  }

  lemma {:induction false} NoFirstHeaderLater(e: Engine, st: Stream, bs: seq<byte>)
    requires Proper(st)
    requires st.phase.InHeader? ==> !st.phase.first
    ensures var t := Fold(e, st, bs); t.phase.InHeader? ==> !t.phase.first
    decreases |bs|
  {
    if bs == [] {
    } else {
      NoFirstHeaderLater(e, Step(e, st, bs[0]), bs[1..]);
    }
  }

  /** A chunk cut out of a well-formed stream is long enough, if it is one header and tag long
      or reaches the end of the stream. */
  lemma NotShort(e: Engine, log: seq<Beat>, s: seq<byte>, k: nat, n: nat)
    requires WellFormed(e, log, true, s)
    requires k < k + n <= |s| && (n >= AES_TAG_SIZE || k + n == |s|)
    ensures !Short(e, Fold(e, Stream(InHeader(true, []), log), s[..k]), s[k..k + n])
  {
    InsideStream(e, log, true, s, k);
    if k == 0 && n >= AES_TAG_SIZE {
      assert s[k..k + n][..AES_TAG_SIZE] == s[..AES_TAG_SIZE];
    }
  }

  /** The state of the parser after the first `j` bytes of a well-formed stream. */
  ghost function At(e: Engine, log: seq<Beat>, s: seq<byte>, j: nat): (st: Stream)
    requires WellFormed(e, log, true, s) && j <= |s|
    ensures Proper(st)
  {
    if j == |s| then Stream(InHeader(true, []), OnePass(e, log, true, s))
    else Fold(e, Stream(InHeader(true, []), log), s[..j])
  }

  /** One chunk cut out of a well-formed stream takes the reading from one cut to the next, unless it
      is too short for where it starts. */
  lemma FeedOne(e: Engine, log: seq<Beat>, s: seq<byte>, k: nat, j: nat)
    requires WellFormed(e, log, true, s)
    requires k <= j <= |s|
    ensures FeedChunk(e, At(e, log, s, k), s[k..j])
            == if Short(e, At(e, log, s, k), s[k..j]) then (Overrun, At(e, log, s, k)) else (Success, At(e, log, s, j))
  {
    if k < |s| {
      var start := Stream(InHeader(true, []), log);
      assert s[..j] == s[..k] + s[k..j];
      FoldConcat(e, start, s[..k], s[k..j]);
      if j == |s| {
        assert s[..j] == s;
        FoldIsOnePass(e, log, true, s);
      } else {
        InsideStream(e, log, true, s, j);
      }
    }
  }

  /** No chunk is too short for where it starts, the first one starting at `k`. */
  ghost predicate NeverShort(e: Engine, log: seq<Beat>, s: seq<byte>, k: nat, chunks: seq<seq<byte>>)
    requires WellFormed(e, log, true, s)
    decreases |chunks|
  {
    if chunks == [] then true
    else
      && k + |chunks[0]| <= |s|
      && !Short(e, At(e, log, s, k), chunks[0])
      && NeverShort(e, log, s, k + |chunks[0]|, chunks[1..])
  }

  /** Chunks that are long enough are never too short. */
  lemma {:induction false} LongEnoughIsNeverShort(e: Engine, log: seq<Beat>, s: seq<byte>, k: nat, j: nat,
                                                  chunks: seq<seq<byte>>)
    requires WellFormed(e, log, true, s) && k <= j <= |s| && k < |s|
    requires Join(chunks) == s[k..j] && LongEnough(chunks, j == |s|)
    ensures NeverShort(e, log, s, k, chunks)
    decreases |chunks|
  {
    if chunks == [] {
    } else {
      var i := k + |chunks[0]|;
      assert chunks[0] == s[k..j][..|chunks[0]|] == s[k..i];
      assert Join(chunks[1..]) == s[k..j][|chunks[0]|..] == s[i..j];
      assert s[k..k + (i - k)] == s[k..i];
      assert chunks[1..] == [] ==> i == j;
      NotShort(e, log, s, k, i - k);
      if |chunks| > 1 {
        assert |chunks[1..][0]| > 0 && i < |s|;
        LongEnoughIsNeverShort(e, log, s, i, j, chunks[1..]);
      }
    }
  }

  /** Chunking invariance from any position of the stream to any later one. */
  lemma {:induction false} FeedRest(e: Engine, log: seq<Beat>, s: seq<byte>, k: nat, j: nat, chunks: seq<seq<byte>>)
    requires WellFormed(e, log, true, s)
    requires k <= j <= |s| && Join(chunks) == s[k..j]
    ensures var (status, t) := FeedAll(e, At(e, log, s, k), chunks);
            if NeverShort(e, log, s, k, chunks) then status == Success && t == At(e, log, s, j) else status == Overrun
    decreases |chunks|
  {
    if chunks == [] {
      assert k == j;
    } else {
      var i := k + |chunks[0]|;
      assert chunks[0] == s[k..j][..|chunks[0]|] == s[k..i];
      assert Join(chunks[1..]) == s[k..j][|chunks[0]|..] == s[i..j];
      FeedOne(e, log, s, k, i);
      hide Short, At;
      FeedRest(e, log, s, i, j, chunks[1..]);
    }
  }

  /** However a well-formed stream is cut into chunks, the parser gets through exactly if no chunk is
      too short for where it starts, and then the engine is given exactly what one pass over the
      unsplit stream gives it. It is enough that all chunks but the last are one header and tag
      long. */
  lemma ChunkingInvariance(e: Engine, s: seq<byte>, chunks: seq<seq<byte>>)
    requires WellFormed(e, [], true, s) && Join(chunks) == s
    ensures var (status, t) := FeedAll(e, Stream(InHeader(true, []), []), chunks);
            && (status == Success <==> NeverShort(e, [], s, 0, chunks))
            && (status == Success ==> t == Stream(InHeader(true, []), OnePass(e, [], true, s)))
    ensures LongEnough(chunks, true) ==> NeverShort(e, [], s, 0, chunks)
  {
    assert s[..0] == [] && s[0..|s|] == s;
    FeedRest(e, [], s, 0, |s|, chunks);
    if LongEnough(chunks, true) {
      LongEnoughIsNeverShort(e, [], s, 0, |s|, chunks);
    }
  }

  /** A load that stops early has given the engine a prefix of that. */
  lemma PrefixOfOnePass(e: Engine, s: seq<byte>, j: nat, chunks: seq<seq<byte>>)
    requires WellFormed(e, [], true, s) && j <= |s|
    requires Join(chunks) == s[..j] && LongEnough(chunks, j == |s|)
    ensures var (status, t) := FeedAll(e, Stream(InHeader(true, []), []), chunks);
            status == Success && t.log <= OnePass(e, [], true, s)
  {
    var start := Stream(InHeader(true, []), []);
    assert s[..0] == [] && s[0..j] == s[..j];
    FeedRest(e, [], s, 0, j, chunks);
    LongEnoughIsNeverShort(e, [], s, 0, j, chunks);
    assert s == s[..j] + s[j..];
    FoldConcat(e, start, s[..j], s[j..]);
    FoldExtendsLog(e, Fold(e, start, s[..j]), s[j..]);
    FoldIsOnePass(e, [], true, s);
  }

  /** Reading a prefix and then the rest, with the log bounds that go with it. */
  lemma FoldSplit(e: Engine, st: Stream, data: seq<byte>, i: nat, j: nat)
    requires Proper(st) && i <= j <= |data|
    ensures Fold(e, st, data[..j]) == Fold(e, Fold(e, st, data[..i]), data[i..j])
    ensures st.log <= Fold(e, st, data[..j]).log <= Fold(e, st, data).log
  {
    assert data[..j] == data[..i] + data[i..j] && data == data[..j] + data[j..];
    FoldConcat(e, st, data[..i], data[i..j]);
    FoldConcat(e, st, data[..j], data[j..]);
    FoldExtendsLog(e, st, data[..j]);
    FoldExtendsLog(e, Fold(e, st, data[..j]), data[j..]);
  }

  /** The reading of a stretch that holds only run data. */
  lemma PastData(e: Engine, st: Stream, data: seq<byte>, i: nat, n: nat)
    requires Proper(st) && i + n <= |data|
    requires var mid := Fold(e, st, data[..i]); mid.phase.InData? && n <= mid.phase.left
    ensures var mid := Fold(e, st, data[..i]);
            Fold(e, st, data[..i + n])
            == Stream(if n == mid.phase.left then InHeader(false, []) else InData(mid.phase.left - n),
                      mid.log + DataBeats(data[i..i + n]))
  {
    FoldSplit(e, st, data, i, i + n);
    FoldData(e, Fold(e, st, data[..i]), data[i..i + n]);
  }

  /** The reading of a stretch that stays inside, or completes, one header. */
  lemma PastHeader(e: Engine, st: Stream, data: seq<byte>, i: nat, n: nat)
    requires Proper(st) && i + n <= |data|
    requires var mid := Fold(e, st, data[..i]); mid.phase == InHeader(false, []) && n <= AES_TAG_SIZE
    ensures var mid := Fold(e, st, data[..i]);
            Fold(e, st, data[..i + n]) == Collect(e, mid.log, false, data[i..i + n])
    ensures var next := Fold(e, st, data[..i + n]);
            next.phase == Finished(false) || next.phase == Rejected ==> Fold(e, st, data) == next
  {
    FoldSplit(e, st, data, i, i + n);
    FoldHeader(e, Fold(e, st, data[..i]), data[i..i + n]);
    assert [] + data[i..i + n] == data[i..i + n];
    var next := Fold(e, st, data[..i + n]);
    if next.phase == Finished(false) || next.phase == Rejected {
      assert data == data[..i + n] + data[i + n..];
      FoldConcat(e, st, data[..i + n], data[i + n..]);
      FoldStopped(e, next, data[i + n..]);
    }
  }

  /** The reading of a whole header that starts where the reading of a prefix stopped. */
  lemma WholeHeader(e: Engine, st: Stream, data: seq<byte>, i: nat)
    requires Proper(st) && i + AES_TAG_SIZE <= |data|
    requires Fold(e, st, data[..i]).phase == InHeader(false, [])
    ensures var next := Fold(e, st, data[..i + AES_TAG_SIZE]);
            && next == AcceptHeader(e, Fold(e, st, data[..i]).log, false, data[i..i + AES_TAG_SIZE])
            && next.log <= Fold(e, st, data).log
            && (!next.phase.InData? || |data| == i + AES_TAG_SIZE ==> Fold(e, st, data) == next)
  {
    PastHeader(e, st, data, i, AES_TAG_SIZE);
    FoldSplit(e, st, data, i, i + AES_TAG_SIZE);
    if |data| == i + AES_TAG_SIZE {
      assert data[..i + AES_TAG_SIZE] == data;
    }
  }

  /** The reading of a chunk that begins with the first header of the bitstream. */
  lemma FirstHeader(e: Engine, st: Stream, chunk: seq<byte>)
    requires st.phase == InHeader(true, []) && |chunk| >= AES_TAG_SIZE
    ensures var r, rest := AcceptHeader(e, st.log, true, chunk[..AES_TAG_SIZE]), chunk[AES_TAG_SIZE..];
            && Fold(e, st, chunk) == Fold(e, r, rest)
            && (r.phase.Rejected? ==> Fold(e, st, chunk) == r)
            && (r.phase.Finished? && rest != [] ==>
                  Fold(e, r, rest) == Fold(e, Stream(InHeader(false, []), r.log), rest))
  {
    var head, rest := chunk[..AES_TAG_SIZE], chunk[AES_TAG_SIZE..];
    assert chunk == head + rest;
    FoldConcat(e, st, head, rest);
    FoldHeader(e, st, head);
    assert [] + head == head;
    var r := AcceptHeader(e, st.log, true, head);
    if r.phase.Rejected? {
      FoldStopped(e, r, rest);
    } else if r.phase.Finished? && rest != [] {
      FoldAgain(e, r, rest);
    }
  }

  /** The reading of a chunk that completes a header cut by the end of the previous chunk. */
  lemma CutHeader(e: Engine, st: Stream, chunk: seq<byte>)
    requires Proper(st) && st.phase.InHeader? && !st.phase.first
    requires |chunk| >= AES_TAG_SIZE - |st.phase.got|
    ensures var missing := AES_TAG_SIZE - |st.phase.got|;
            var r := AcceptHeader(e, st.log, false, st.phase.got + chunk[..missing]);
            && !r.phase.InHeader? && Proper(r) && Fold(e, st, chunk) == Fold(e, r, chunk[missing..])
            && (!r.phase.InData? || |chunk| == missing ==> Fold(e, st, chunk) == r)
  {
    var missing := AES_TAG_SIZE - |st.phase.got|;
    assert chunk == chunk[..missing] + chunk[missing..];
    FoldConcat(e, st, chunk[..missing], chunk[missing..]);
    FoldHeader(e, st, chunk[..missing]);
    var r := AcceptHeader(e, st.log, false, st.phase.got + chunk[..missing]);
    if !r.phase.InData? {
      FoldStopped(e, r, chunk[missing..]);
    }
  }

  /** The reading of a chunk that ends inside a header. */
  lemma PartHeader(e: Engine, st: Stream, chunk: seq<byte>)
    requires st.phase.InHeader? && |st.phase.got| + |chunk| < AES_TAG_SIZE
    ensures Fold(e, st, chunk) == Stream(InHeader(st.phase.first, st.phase.got + chunk), st.log)
    ensures st.phase.got == [] ==> st.phase.got + chunk == chunk
  {
    FoldHeader(e, st, chunk);
  }

  /** The decryption half of the bitstream loader's state. */
  class Decryptor {
    const engine: Engine
    const pcapSound: bool
    const secureHdr: array<byte>
    var hdr: nat
    var nextBlkLen: nat
    var sizeofData: nat
    var log: seq<Beat>

    /** Whether the PCAP has ever failed to become idle in time. */
    var waitFailed: bool

    ghost predicate Valid()
      reads this
    {
      && secureHdr.Length == AES_TAG_SIZE
      && sizeofData % 4 == 0 && hdr % 4 == 0 && hdr < AES_TAG_SIZE
      && (hdr != 0 ==> sizeofData == 0)
      && (nextBlkLen == 0 ==> sizeofData == 0 && hdr == 0)
    }

    /** The position in the stream that the fields stand for, some header having been seen. */
    ghost function Mid(): (st: Stream)
      reads this, secureHdr
      requires Valid()
      ensures Proper(st)
    {
      Stream(if sizeofData != 0 then InData(sizeofData) else InHeader(false, secureHdr[..hdr]), log)
    }

    /** The position in the stream between two chunks. */
    ghost function Abs(): (st: Stream)
      reads this, secureHdr
      requires Valid()
      ensures Proper(st)
    {
      if nextBlkLen == 0 then Stream(InHeader(true, []), log) else Mid()
    }

    constructor (engine: Engine, pcapSound: bool)
      ensures Valid() && this.engine == engine && this.pcapSound == pcapSound && fresh(secureHdr)
      ensures Abs() == Stream(InHeader(true, []), []) && !waitFailed
    {
      this.engine, this.pcapSound := engine, pcapSound;
      secureHdr := new byte[AES_TAG_SIZE](_ => 0);
      hdr, nextBlkLen, sizeofData, log, waitFailed := 0, 0, 0, [], false;
    }

    /** A sound PCAP becomes idle in time; another one may or may not. */
    method PcapWaitForDone() returns (ok: bool)
      modifies this`waitFailed
      ensures pcapSound ==> ok
      ensures waitFailed <==> old(waitFailed) || !ok
    {
      ok := *;
      ok := ok || pcapSound;
      waitFailed := waitFailed || !ok;
    }

    method SendData(data: seq<byte>, srcAddr: nat, words: nat)
      requires srcAddr + 4 * words <= |data|
      modifies this`log
      ensures log == old(log) + DataBeats(data[srcAddr..srcAddr + 4 * words])
    {
      log := log + DataBeats(data[srcAddr..srcAddr + 4 * words]);
    }

    /** Pushes a header and its tag, and asks the engine whether the tag is good. */
    method DecryptSecureHdr(first: bool, raw: seq<byte>) returns (status: Status)
      requires |raw| == AES_TAG_SIZE
      modifies this`log
      ensures log == old(log) + [SecureHeader(first, raw[..HDR_SIZE], raw[HDR_SIZE..])]
      ensures status == if engine.tagOk(log) then Success else TagMismatch
    {
      log := log + [SecureHeader(first, raw[..HDR_SIZE], raw[HDR_SIZE..])];
      status := if engine.tagOk(log) then Success else TagMismatch;
    }

    /** Pushes a header of which the chunk has only `part`: the rest is read from behind the chunk. */
    method PushPastEnd(first: bool, part: seq<byte>) returns (status: Status)
      requires |part| < AES_TAG_SIZE
      modifies this`log
      ensures status == Overrun || status == TagMismatch
      ensures status == TagMismatch ==> RefusedPastEnd(engine, Stream(InHeader(first, part), old(log)), log)
    {
      var behind: seq<byte> := *;
      if |part| + |behind| != AES_TAG_SIZE {
        behind := seq(AES_TAG_SIZE - |part|, _ => 0);
      }
      var raw := part + behind;
      status := DecryptSecureHdr(first, raw);
      if status != Success {
        WasRefused(engine, Stream(InHeader(first, part), old(log)), raw, log);
      }
      status := if status == Success then Overrun else TagMismatch;
    }

    method SetUpNextBlk()
      modifies this`log, this`nextBlkLen, this`sizeofData
      ensures nextBlkLen == sizeofData == NextLen(engine, old(log))
      ensures log == old(log) + [StartBlock(NextLen(engine, old(log)))]
    {
      nextBlkLen := Wrap(engine.iv3(log) * 4);
      log := log + [StartBlock(nextBlkLen)];
      sizeofData := nextBlkLen;
    }

    method CopyToSecureHdr(at: nat, data: seq<byte>)
      requires at + |data| <= secureHdr.Length
      modifies secureHdr
      ensures secureHdr[..at + |data|] == old(secureHdr[..at]) + data
    {
      forall i | 0 <= i < |data| {
        secureHdr[at + i] := data[i];
      }
    }

    /** A whole header and tag: push them, and set up the run they announce. */
    method TakeHeader(first: bool, raw: seq<byte>) returns (status: Status)
      requires |raw| == AES_TAG_SIZE
      modifies this`log, this`nextBlkLen, this`sizeofData
      ensures var r := AcceptHeader(engine, old(log), first, raw);
              && log == r.log
              && status == (if r.phase.Rejected? then TagMismatch else Success)
              && (status == Success ==> nextBlkLen == sizeofData == if r.phase.InData? then r.phase.left else 0)
              && (status == Success ==> sizeofData % 4 == 0)
              && (status == TagMismatch ==> nextBlkLen == old(nextBlkLen) && sizeofData == old(sizeofData))
    {
      status := DecryptSecureHdr(first, raw);
      if status == Success {
        SetUpNextBlk();
      }
    }

    /** Keeps the beginning of a header at the end of the chunk. */
    method KeepHeader(data: seq<byte>, srcAddr: nat, size: nat, ghost start: Stream)
      requires Valid() && hdr == 0 && nextBlkLen != 0 && sizeofData == 0 && Proper(start)
      requires size < AES_TAG_SIZE && size % 4 == 0 && srcAddr + size == |data|
      requires Mid() == Fold(engine, start, data[..srcAddr])
      modifies this`hdr, secureHdr
      ensures Valid() && hdr == size && Mid() == Fold(engine, start, data)
    {
      hide Fold, AcceptHeader;
      PastHeader(engine, start, data, srcAddr, size);
      assert data[srcAddr..srcAddr + size] == data[srcAddr..];
      assert data[..srcAddr + size] == data;
      CopyToSecureHdr(0, data[srcAddr..srcAddr + size]);
      hdr := size;
    }

    /** Sends what the chunk still holds of the current run, and keeps the beginning of a header
        that the chunk cuts. Returns the new source position and remaining size. */
    method TakeData(data: seq<byte>, srcAddr: nat, size: nat, ghost start: Stream) returns (srcAddr': nat, size': nat)
      requires Valid() && hdr == 0 && Proper(start)
      requires srcAddr + size == |data| && size % 4 == 0
      requires Mid() == Fold(engine, start, data[..srcAddr])
      modifies this`log, this`sizeofData, this`hdr, secureHdr
      ensures Valid()
      ensures nextBlkLen == old(nextBlkLen) && size' <= size && size' % 4 == 0
      ensures old(sizeofData) == 0 ==> size' == size
      ensures size' != 0 ==> hdr == 0 && sizeofData == 0 && srcAddr' + size' == |data|
                             && (old(sizeofData) != 0 ==> size' >= AES_TAG_SIZE)
                             && Mid() == Fold(engine, start, data[..srcAddr'])
      ensures size' == 0 ==> Mid() == Fold(engine, start, data)
      ensures log <= Fold(engine, start, data).log
    {
      hide Fold, AcceptHeader, DataBeats;
      srcAddr', size' := srcAddr, size;
      assert data[..srcAddr + size] == data;
      if size <= sizeofData && sizeofData != 0 {
        PastData(engine, start, data, srcAddr, size);
        SendData(data, srcAddr, size / 4);
        sizeofData := sizeofData - size;
        size' := 0;
      } else if sizeofData != 0 {
        PastData(engine, start, data, srcAddr, sizeofData);
        SendData(data, srcAddr, sizeofData / 4);
        srcAddr' := srcAddr + sizeofData;
        size' := size - sizeofData;
        sizeofData := 0;
        if size' < AES_TAG_SIZE {
          KeepHeader(data, srcAddr', size', start);
          size' := 0;
        }
      }
      if size' != 0 {
        FoldSplit(engine, start, data, srcAddr', srcAddr');
      }
    }

    /** What is left to do starts in the middle of a header that `data` does not complete. */
    ghost predicate CutOff(data: seq<byte>)
      reads this
    {
      sizeofData == 0 && 0 < |data| < AES_TAG_SIZE
    }

    method DecryptPl(data: seq<byte>) returns (status: Status)
      requires Valid() && hdr == 0
      requires |data| % 4 == 0
      modifies this, secureHdr
      ensures Valid()
      ensures old(CutOff(data)) ==>
                && status != Success
                && (status == TagMismatch ==> RefusedPastEnd(engine, Stream(InHeader(false, data), old(log)), log))
      ensures !old(CutOff(data)) ==> status != Overrun && log <= Fold(engine, old(Mid()), data).log
      ensures status == Success ==>
                var t := Fold(engine, old(Mid()), data);
                && !t.phase.Rejected? && log == t.log
                && (t.phase.Finished? ==> nextBlkLen == 0)
                && (!t.phase.Finished? ==> Mid() == t)
                && (!t.phase.Finished? && data != [] ==> nextBlkLen != 0)
                && (data == [] ==> nextBlkLen == old(nextBlkLen))
      ensures status == TagMismatch && !old(CutOff(data)) ==>
                var t := Fold(engine, old(Mid()), data); t.phase.Rejected? && log == t.log
      ensures (waitFailed <==> old(waitFailed) || status == PcapTimeout) && (pcapSound ==> status != PcapTimeout)
    {
      ghost var start := Mid();
      var size, srcAddr, nextBlkAddr := |data|, 0, -1;
      assert data[..0] == [] && Mid() == Fold(engine, start, data[..0]);
      hide Fold, AcceptHeader, RefusedPastEnd;
      while true
        invariant Valid() && hdr == 0 && waitFailed == old(waitFailed)
        invariant 0 <= srcAddr && 0 <= size && srcAddr + size == |data|
        invariant size % 4 == 0 && (size == 0 ==> data == [])
        invariant Mid() == Fold(engine, start, data[..srcAddr])
        invariant sizeofData == 0 && 0 < size < AES_TAG_SIZE ==> srcAddr == 0 && old(CutOff(data))
        invariant old(CutOff(data)) ==> srcAddr == 0 && sizeofData == 0
        invariant srcAddr != 0 ==> nextBlkLen != 0
        invariant srcAddr == 0 ==> nextBlkLen == old(nextBlkLen)
        invariant data == [] ==> nextBlkLen == old(nextBlkLen)
        decreases size
      {
        srcAddr, size := TakeData(data, srcAddr, size, start);
        var ok := PcapWaitForDone();
        if !ok {
          return PcapTimeout;
        }
        if sizeofData == 0 && 0 < size < AES_TAG_SIZE {
          assert srcAddr == 0 && data[..0] == [] && data[0..] == data;
          status := PushPastEnd(false, data[srcAddr..]);
          return;
        }
        if sizeofData == 0 && size != 0 {
          WholeHeader(engine, start, data, srcAddr);
          status := TakeHeader(false, data[srcAddr..srcAddr + AES_TAG_SIZE]);
          if status != Success {
            return;
          }
          size := size - AES_TAG_SIZE;
          if size != 0 {
            nextBlkAddr := srcAddr + AES_TAG_SIZE;
          }
          if nextBlkAddr != -1 && sizeofData != 0 {
            srcAddr := nextBlkAddr;
          } else {
            break;
          }
        }
        if size == 0 {
          break;
        }
      }
      return Success;
    }

    /** The fields, the log and `status` are what reading `chunk` from `start` calls for. A chunk that
        is too short is never accepted: the header it lacks is read from behind it. */
    ghost predicate Fed(start: Stream, chunk: seq<byte>, status: Status)
      reads this, secureHdr
      requires Proper(start)
    {
      && Valid()
      && if Short(engine, start, chunk) then
           && status != Success
           && (status == TagMismatch ==> RefusedPastEnd(engine, Fold(engine, start, chunk), log))
         else
           var (st, t) := FeedChunk(engine, start, chunk);
           && status != Overrun
           && (status == Success ==> st == Success && Abs() == t)
           && (status == TagMismatch ==> st == TagMismatch && log == t.log)
           && (status == PcapTimeout ==> log <= t.log)
    }

    /** The chunk begins with the first secure header of the bitstream. */
    method DecryptFirstChunk(chunk: seq<byte>) returns (status: Status)
      requires Valid() && |chunk| % 4 == 0
      requires nextBlkLen == 0
      modifies this, secureHdr
      ensures Fed(old(Abs()), chunk, status)
      ensures (waitFailed <==> old(waitFailed) || status == PcapTimeout) && (pcapSound ==> status != PcapTimeout)
    {
      if |chunk| < AES_TAG_SIZE {
        PartHeader(engine, Abs(), chunk);
        status := PushPastEnd(true, chunk);
        return;
      }
      FirstHeader(engine, Abs(), chunk);
      ghost var rest := chunk[AES_TAG_SIZE..];
      assert |rest| % 4 == 0;
      hide Fold, AcceptHeader, RefusedPastEnd;
      status := TakeHeader(true, chunk[..AES_TAG_SIZE]);
      if status != Success {
        return;
      }
      assert secureHdr[..hdr] == [];
      if CutOff(rest) {
        PartHeader(engine, Stream(InHeader(false, []), log), rest);
      }
      status := DecryptPl(chunk[AES_TAG_SIZE..]);
    }

    /** Completes the header kept from the previous chunk, pushes it and empties the buffer. */
    method TakeCutHeader(rest: seq<byte>) returns (status: Status)
      requires secureHdr.Length == AES_TAG_SIZE && hdr + |rest| == AES_TAG_SIZE
      modifies this, secureHdr
      ensures waitFailed == old(waitFailed)
      ensures var r := AcceptHeader(engine, old(log), false, old(secureHdr[..hdr]) + rest);
              && log == r.log
              && status == (if r.phase.Rejected? then TagMismatch else Success)
              && (status == Success ==>
                    && hdr == 0 && sizeofData % 4 == 0
                    && nextBlkLen == sizeofData == if r.phase.InData? then r.phase.left else 0)
              && (status != Success ==>
                    nextBlkLen == old(nextBlkLen) && sizeofData == old(sizeofData) && hdr == old(hdr))
    {
      CopyToSecureHdr(hdr, rest);
      assert secureHdr[..hdr + |rest|] == secureHdr[..];
      status := TakeHeader(false, secureHdr[..]);
      if status == Success {
        hdr := 0;
        forall i | 0 <= i < secureHdr.Length {
          secureHdr[i] := 0;
        }
      }
    }

    /** The chunk begins with the rest of a header kept from the previous chunk. */
    method DecryptCutHeader(chunk: seq<byte>) returns (status: Status)
      requires Valid() && |chunk| % 4 == 0
      requires nextBlkLen != 0 && hdr != 0
      modifies this, secureHdr
      ensures Fed(old(Abs()), chunk, status)
      ensures (waitFailed <==> old(waitFailed) || status == PcapTimeout) && (pcapSound ==> status != PcapTimeout)
    {
      var missing := AES_TAG_SIZE - hdr;
      if |chunk| < missing {
        PartHeader(engine, Abs(), chunk);
        status := PushPastEnd(false, secureHdr[..hdr] + chunk);
      } else {
        status := DecryptFromCutHeader(chunk, missing);
      }
    }

    method DecryptFromCutHeader(chunk: seq<byte>, missing: nat) returns (status: Status)
      requires Valid() && |chunk| % 4 == 0
      requires nextBlkLen != 0 && hdr != 0 && missing == AES_TAG_SIZE - hdr && missing <= |chunk|
      modifies this, secureHdr
      ensures Fed(old(Abs()), chunk, status)
      ensures (waitFailed <==> old(waitFailed) || status == PcapTimeout) && (pcapSound ==> status != PcapTimeout)
    {
      hide Fold, AcceptHeader, RefusedPastEnd;
      CutHeader(engine, Abs(), chunk);
      AlignedSub(|chunk|, missing);
      status := TakeCutHeader(chunk[..missing]);
      if status != Success {
        return;
      }
      assert secureHdr[..hdr] == [];
      var size := |chunk| - missing;
      var nextBlkAddr := if size != 0 then missing else 0;
      if nextBlkAddr != 0 && sizeofData != 0 {
        status := DecryptPl(chunk[nextBlkAddr..]);
      }
    }

    /** One chunk of the bitstream. Whatever the bytes, the engine is given what the reference
        reading of the chunk gives it, and the position carried to the next chunk is right. */
    method DecryptPlChunks(chunk: seq<byte>) returns (status: Status)
      requires Valid() && |chunk| % 4 == 0
      modifies this, secureHdr
      ensures Fed(old(Abs()), chunk, status)
      ensures (waitFailed <==> old(waitFailed) || status == PcapTimeout) && (pcapSound ==> status != PcapTimeout)
    {
      if nextBlkLen == 0 {
        status := DecryptFirstChunk(chunk);
      } else if hdr != 0 {
        status := DecryptCutHeader(chunk);
      } else {
        if CutOff(chunk) {
          PartHeader(engine, Abs(), chunk);
        }
        status := DecryptPl(chunk);
      }
    }
  }
}
