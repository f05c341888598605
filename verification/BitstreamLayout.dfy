/**
 Where an authenticated bitstream lies in memory: data cut into blocks, blocks cut into chunks,
 one certificate per block behind the data. The walks over it are given here as the plain lists
 of reads they should make, with no index arithmetic.
 */
module BitstreamLayout {
  import opened Arith
  import opened Tiling
  import opened Words

  /** The size of an authentication certificate, and of the partition signature that ends it. */
  const AC_SIZE: nat := 8 + 56 + 1088 + 1088 + 512 + 512 + 512
  const SIG_SIZE: nat := 512

  /** The reads that cover `len` bytes from `addr`, `c` at a time. */
  function ChunkReads(addr: nat, len: nat, c: nat): seq<Read>
    requires c > 0
    decreases len
  {
    if len <= c then [Read(addr, len)] else [Read(addr, c)] + ChunkReads(addr + c, len - c, c)
  }

  function NumChunks(len: nat, c: nat): (n: nat)
    requires c > 0
    ensures n >= 1
    decreases len
  {
    if len <= c then 1 else 1 + NumChunks(len - c, c)
  }

  function ChunkOffset(addr: nat, c: nat, index: nat): nat {
    addr + c * index
  }

  lemma ChunkOffsetNext(addr: nat, c: nat, index: nat)
    ensures ChunkOffset(addr, c, 0) == addr
    ensures ChunkOffset(addr, c, index + 1) == ChunkOffset(addr, c, index) + c
  {
    assert c * (index + 1) == c * index + c;
  }

  /** `todo` is what a walk with `n` chunks left, `len` bytes from `addr`, has still to read. */
  ghost predicate Walk(todo: seq<Read>, addr: nat, len: nat, c: nat, n: nat)
    requires c > 0
  {
    todo == ChunkReads(addr, len, c) && n == NumChunks(len, c)
  }

  lemma WalkStep(todo: seq<Read>, addr: nat, len: nat, c: nat, n: nat)
    requires c > 0 && Walk(todo, addr, len, c, n)
    ensures n > 0 && todo != []
    ensures n == 1 ==> len <= c && todo == [Read(addr, len)]
    ensures n > 1 ==> len > c && todo[0] == Read(addr, c) && Walk(todo[1..], addr + c, len - c, c, n - 1)
  {
  }

  /** A walk over the reads `full` has come to number `index`, with `left` bytes to go. */
  ghost predicate AtChunk(full: seq<Read>, addr: nat, left: nat, c: nat, index: nat, n: nat)
    requires c > 0
  {
    && index <= n == |full|
    && (index < n ==> Walk(full[index..], ChunkOffset(addr, c, index), left, c, n - index))
  }

  lemma FirstChunk(addr: nat, len: nat, c: nat)
    requires c > 0
    ensures AtChunk(ChunkReads(addr, len, c), addr, len, c, 0, NumChunks(len, c))
  {
    ChunkCount(addr, len, c);
    ChunkOffsetNext(addr, c, 0);
  }

  lemma {:induction false} ChunkCount(addr: nat, len: nat, c: nat)
    requires c > 0
    ensures |ChunkReads(addr, len, c)| == NumChunks(len, c)
    decreases len
  {
    if len <= c {
    } else {
      ChunkCount(addr + c, len - c, c);
    }
  }

  lemma NextChunk(full: seq<Read>, addr: nat, left: nat, c: nat, index: nat, n: nat)
    requires c > 0 && index < n && AtChunk(full, addr, left, c, index, n)
    ensures full[index] == Read(ChunkOffset(addr, c, index), if index == n - 1 then left else c)
    ensures if index == n - 1 then left <= c else left > c
    ensures AtChunk(full, addr, if index == n - 1 then left else left - c, c, index + 1, n)
    ensures full[..index + 1] == full[..index] + [full[index]]
  {
    WalkStep(full[index..], ChunkOffset(addr, c, index), left, c, n - index);
    ChunkOffsetNext(addr, c, index);
    assert full[index..][1..] == full[index + 1..];
    hide Walk, ChunkOffset;
  }

  function Min(a: nat, b: nat): nat {
    if a <= b then a else b
  }

  function TwoPasses(done: seq<Read>, src: nat, len: nat, c: nat): seq<Read>
    requires c > 0
  {
    done + ChunkReads(src, len, c) + ChunkReads(src, len, c)
  }

  /** The reads of one block: its certificate, then the block twice. */
  function BlockReads(done: seq<Read>, cert: nat, src: nat, len: nat, c: nat): seq<Read>
    requires c > 0
  {
    TwoPasses(done + [Read(cert, AC_SIZE)], src, len, c)
  }

  /** The reads of a whole successful load, after those in `done`. */
  function LoadReads(done: seq<Read>, src: nat, cert: nat, end: nat, bs: nat, c: nat): seq<Read>
    requires bs > 0 && c > 0
    decreases end - src
  {
    if src >= end then done
    else LoadReads(BlockReads(done, cert, src, Min(bs, end - src), c), src + bs, cert + AC_SIZE, end, bs, c)
  }

  lemma LoadReadsStep(done: seq<Read>, src: nat, cert: nat, end: nat, bs: nat, c: nat)
    requires bs > 0 && c > 0 && src < end
    ensures var next := BlockReads(done, cert, src, Min(bs, end - src), c);
            && LoadReads(done, src, cert, end, bs, c) == LoadReads(next, src + bs, cert + AC_SIZE, end, bs, c)
            && (src + bs >= end ==> LoadReads(done, src, cert, end, bs, c) == next)
  {
  }

  lemma {:induction false} ChunkReadsTile(addr: nat, len: nat, c: nat)
    requires c > 0 && len > 0
    ensures Tiles(ChunkReads(addr, len, c), addr, addr + len, c)
    ensures |ChunkReads(addr, len, c)| == NumChunks(len, c)
    decreases len
  {
    if len > c {
      ChunkReadsTile(addr + c, len - c, c);
      assert ChunkReads(addr, len, c)[1..] == ChunkReads(addr + c, len - c, c);
    } else {
      assert ChunkReads(addr, len, c)[1..] == [];
    }
  }

  /** The data reads of one pass over all blocks. */
  ghost function PassReads(src: nat, end: nat, bs: nat, c: nat): seq<Read>
    requires bs > 0 && c > 0
    decreases end - src
  {
    if src >= end then [] else ChunkReads(src, Min(bs, end - src), c) + PassReads(src + bs, end, bs, c)
  }

  /** One pass visits the whole of the data once, in order. */
  lemma {:induction false} PassTiles(src: nat, end: nat, bs: nat, c: nat)
    requires bs > 0 && c > 0 && src <= end
    ensures Tiles(PassReads(src, end, bs, c), src, end, c)
    decreases end - src
  {
    if src >= end {
    } else {
      var len := Min(bs, end - src);
      ChunkReadsTile(src, len, c);
      if src + bs < end {
        PassTiles(src + bs, end, bs, c);
        TilesJoin(ChunkReads(src, len, c), PassReads(src + bs, end, bs, c), src, src + bs, end, c);
      } else {
        assert ChunkReads(src, len, c) + [] == ChunkReads(src, len, c);
      }
    }
  }

  lemma {:induction false} LoadReadsAppend(done: seq<Read>, src: nat, cert: nat, end: nat, bs: nat, c: nat)
    requires bs > 0 && c > 0
    ensures LoadReads(done, src, cert, end, bs, c) == done + LoadReads([], src, cert, end, bs, c)
    decreases end - src
  {
    if src >= end {
    } else {
      var len := Min(bs, end - src);
      var one := BlockReads([], cert, src, len, c);
      LoadReadsAppend(BlockReads(done, cert, src, len, c), src + bs, cert + AC_SIZE, end, bs, c);
      LoadReadsAppend(one, src + bs, cert + AC_SIZE, end, bs, c);
      assert BlockReads(done, cert, src, len, c) == done + one;
    }
  }

  /** `rs` are the reads of a load: block after block, its own certificate, then its data, then the
      same data again; `pass` are the data reads of one of the two passes. */
  ghost predicate Walks(rs: seq<Read>, pass: seq<Read>, src: nat, cert: nat, end: nat, bs: nat, c: nat)
    requires bs > 0
    decreases end - src
  {
    if src >= end then rs == [] && pass == []
    else
      exists n: nat ::
        && 2 * n + 1 <= |rs| && n <= |pass|
        && rs[0] == Read(cert, AC_SIZE)
        && rs[1..n + 1] == rs[n + 1..2 * n + 1] == pass[..n]
        && Tiles(pass[..n], src, src + Min(bs, end - src), c)
        && Walks(rs[2 * n + 1..], pass[n..], src + bs, cert + AC_SIZE, end, bs, c)
  }

  lemma Sliced(r: Read, a: seq<Read>, rest: seq<Read>, rs: seq<Read>)
    requires rs == [r] + a + a + rest
    ensures 2 * |a| + 1 <= |rs| && rs[0] == r
    ensures rs[1..|a| + 1] == rs[|a| + 1..2 * |a| + 1] == a && rs[2 * |a| + 1..] == rest
  {
  }

  /** One block in front of a walk. */
  lemma WalksFirst(a: seq<Read>, rest: seq<Read>, pass: seq<Read>, src: nat, cert: nat, end: nat, bs: nat, c: nat)
    requires bs > 0 && src < end
    requires Tiles(a, src, src + Min(bs, end - src), c) && Walks(rest, pass, src + bs, cert + AC_SIZE, end, bs, c)
    ensures Walks([Read(cert, AC_SIZE)] + a + a + rest, a + pass, src, cert, end, bs, c)
  {
    var rs, all := [Read(cert, AC_SIZE)] + a + a + rest, a + pass;
    Sliced(Read(cert, AC_SIZE), a, rest, rs);
    assert all[..|a|] == a && all[|a|..] == pass;
    hide Tiles, Min;
  }

  lemma LoadReadsFirst(src: nat, cert: nat, end: nat, bs: nat, c: nat)
    requires bs > 0 && c > 0 && src < end
    ensures var a := ChunkReads(src, Min(bs, end - src), c);
            LoadReads([], src, cert, end, bs, c)
            == [Read(cert, AC_SIZE)] + a + a + LoadReads([], src + bs, cert + AC_SIZE, end, bs, c)
  {
    LoadReadsAppend(BlockReads([], cert, src, Min(bs, end - src), c), src + bs, cert + AC_SIZE, end, bs, c);
  }

  lemma PassReadsFirst(src: nat, end: nat, bs: nat, c: nat)
    requires bs > 0 && c > 0 && src < end
    ensures var len := Min(bs, end - src);
            len > 0 && PassReads(src, end, bs, c) == ChunkReads(src, len, c) + PassReads(src + bs, end, bs, c)
  {
  }

  lemma {:induction false} LoadWalks(src: nat, cert: nat, end: nat, bs: nat, c: nat)
    requires bs > 0 && c > 0
    ensures Walks(LoadReads([], src, cert, end, bs, c), PassReads(src, end, bs, c), src, cert, end, bs, c)
    decreases end - src
  {
    if src >= end {
    } else {
      var len := Min(bs, end - src);
      PassReadsFirst(src, end, bs, c);
      hide *;
      LoadWalks(src + bs, cert + AC_SIZE, end, bs, c);
      LoadReadsFirst(src, cert, end, bs, c);
      ChunkReadsTile(src, len, c);
      WalksFirst(ChunkReads(src, len, c), LoadReads([], src + bs, cert + AC_SIZE, end, bs, c),
                 PassReads(src + bs, end, bs, c), src, cert, end, bs, c);
    }
  }

  /** A successful load reads the data twice, block by block, each block after the certificate that
      lies at its own place; and each pass covers the data exactly, once, in order. */
  lemma LoadTiles(start: nat, end: nat, bs: nat, c: nat)
    requires bs > 0 && c > 0 && start <= end
    ensures var pass := PassReads(start, end, bs, c);
            && Walks(LoadReads([], start, end, end, bs, c), pass, start, end, end, bs, c)
            && Tiles(pass, start, end, c)
  {
    LoadWalks(start, end, end, bs, c);
    PassTiles(start, end, bs, c);
  }

  /** The chunk count is the ceiling of the division, or 1 for an empty block. */
  lemma {:induction false} NumChunksIsCeiling(len: nat, c: nat)
    requires c > 0
    ensures NumChunks(len, c)
            == if len > c then len / c + (if len % c > 0 then 1 else 0) else 1
    decreases len
  {
    if len <= c {
    } else {
      NumChunksIsCeiling(len - c, c);
      DivStep(len, c);
      if len - c < c {
        assert (len - c) / c == 0 && (len - c) % c == len - c;
      } else if len - c == c {
        assert len / c == 2 && len % c == 0;
      }
    }
  }

  /** How the loader's parameters describe a bitstream of `n` blocks. */
  ghost predicate Placed(start: nat, acOffset: nat, totalLen: nat, bs: nat, n: nat) {
    && start <= acOffset < U32 && bs > 0
    && acOffset - start <= n * bs
    && (n > 0 ==> (n - 1) * bs < acOffset - start)
    && totalLen == (acOffset - start) + n * AC_SIZE < U32
  }

  /** The length the loader computes for what it takes to be the last block; its block index is
      an 8-bit counter. */
  function LastBlockLen(totalLen: nat, index: nat, bs: nat): (r: u32)
  {
    Wrap(totalLen - index * AC_SIZE - (index - 1) * bs)
  }

  /** The block at `index` (from 1) is the last one exactly when it would reach past the data, and
      then the computed length is what is left of the data. */
  lemma LastBlock(start: nat, acOffset: nat, totalLen: nat, bs: nat, n: nat, index: nat)
    requires Placed(start, acOffset, totalLen, bs, n) && index > 0
    requires start + (index - 1) * bs < acOffset
    ensures index <= n
    ensures start + (index - 1) * bs + bs == start + index * bs
    ensures start + index * bs > acOffset ==>
              index == n && LastBlockLen(totalLen, index, bs) == acOffset - start - (index - 1) * bs
    ensures start + index * bs >= acOffset ==> index == n
  {
    MulLess(index - 1, n, bs);
    assert index * bs == (index - 1) * bs + bs;
    if start + index * bs >= acOffset {
      MulLess(n - 1, index, bs);
    }
  }
}
