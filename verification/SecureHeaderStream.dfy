/**
 The encrypted bitstream as the AES engine sees it.

 An encrypted bitstream is a secure header and GCM tag, followed by data runs each followed by
 another header and tag; every header announces, once decrypted, the length of the next run.
 This module gives the reference reading of such a stream, one byte at a time, so that how the
 stream is cut into chunks cannot matter, and a second one, block at a time.
 */
module SecureHeaderStream {
  import opened Words

  const HDR_SIZE: nat := 48
  const TAG_SIZE: nat := 16
  const AES_TAG_SIZE: nat := HDR_SIZE + TAG_SIZE

  /** What is pushed to the AES engine. Data is logged byte by byte: the engine does not see
      where one DMA transfer of a run ends and the next begins. */
  datatype Beat =
    | DataByte(b: byte)
    | SecureHeader(first: bool, hdr: seq<byte>, tag: seq<byte>)
    | StartBlock(len: u32)

  /** The engine is an arbitrary deterministic device: after any history of beats it accepts or
      refuses the last tag, and holds some word in its IV_3 register. */
  datatype Engine = Engine(tagOk: seq<Beat> -> bool, iv3: seq<Beat> -> u32)

  datatype Phase =
    | InHeader(first: bool, got: seq<byte>)
    | InData(left: nat)
    | Finished(again: bool)
    | Rejected

  datatype Stream = Stream(phase: Phase, log: seq<Beat>)

  function NextLen(e: Engine, log: seq<Beat>): (r: u32)
    ensures r % 4 == 0
  {
    Wrap(e.iv3(log) * 4)
  }

  function AcceptHeader(e: Engine, log: seq<Beat>, first: bool, raw: seq<byte>): Stream
    requires |raw| == AES_TAG_SIZE
  {
    var pushed := log + [SecureHeader(first, raw[..HDR_SIZE], raw[HDR_SIZE..])];
    if !e.tagOk(pushed) then Stream(Rejected, pushed)
    else
      var len := NextLen(e, pushed);
      Stream(if len == 0 then Finished(first) else InData(len), pushed + [StartBlock(len)])
  }

  function Collect(e: Engine, log: seq<Beat>, first: bool, got: seq<byte>): Stream
    requires |got| <= AES_TAG_SIZE
  {
    if |got| == AES_TAG_SIZE then AcceptHeader(e, log, first, got) else Stream(InHeader(first, got), log)
  }

  ghost predicate Proper(st: Stream) {
    && (st.phase.InHeader? ==> |st.phase.got| < AES_TAG_SIZE)
    && (st.phase.InData? ==> st.phase.left > 0)
  }

  /** One byte of the reference reading. Bytes after a header that announces no data are not
      looked at, except after the very first header, where another header is expected. */
  function Step(e: Engine, st: Stream, b: byte): (r: Stream)
    requires Proper(st)
    ensures Proper(r)
  {
    match st.phase
    case InHeader(first, got) => Collect(e, st.log, first, got + [b])
    case InData(left) =>
      Stream(if left == 1 then InHeader(false, []) else InData(left - 1), st.log + [DataByte(b)])
    case Finished(again) => if again then Collect(e, st.log, false, [b]) else st
    case Rejected => st
  }

  function Fold(e: Engine, st: Stream, bs: seq<byte>): (r: Stream)
    requires Proper(st)
    ensures Proper(r)
    decreases |bs|
  {
    if bs == [] then st else Fold(e, Step(e, st, bs[0]), bs[1..])
  }

  function DataBeats(bs: seq<byte>): (r: seq<Beat>)
    ensures |r| == |bs| && forall i :: 0 <= i < |bs| ==> r[i] == DataByte(bs[i])
  {
    seq(|bs|, i requires 0 <= i < |bs| => DataByte(bs[i]))
  }

  lemma {:induction false} FoldConcat(e: Engine, st: Stream, a: seq<byte>, b: seq<byte>)
    requires Proper(st)
    ensures Fold(e, st, a + b) == Fold(e, Fold(e, st, a), b)
    decreases |a|
  {
    if a == [] {
      assert a + b == b;
    } else {
      assert (a + b)[0] == a[0] && (a + b)[1..] == a[1..] + b;
      FoldConcat(e, Step(e, st, a[0]), a[1..], b);
    }
  }

  /** Nothing already pushed to the engine is ever taken back. */
  lemma {:induction false} FoldExtendsLog(e: Engine, st: Stream, bs: seq<byte>)
    requires Proper(st)
    ensures st.log <= Fold(e, st, bs).log
    decreases |bs|
  {
    if bs == [] {
    } else {
      FoldExtendsLog(e, Step(e, st, bs[0]), bs[1..]);
    }
  }

  lemma DataBeatsFirst(bs: seq<byte>)
    requires bs != []
    ensures DataBeats(bs) == [DataByte(bs[0])] + DataBeats(bs[1..])
    ensures DataBeats([]) == []
  {
  }

  lemma {:induction false} FoldData(e: Engine, st: Stream, bs: seq<byte>)
    requires st.phase.InData? && |bs| <= st.phase.left && 0 < st.phase.left
    ensures Fold(e, st, bs) ==
            Stream(if |bs| == st.phase.left then InHeader(false, []) else InData(st.phase.left - |bs|),
                   st.log + DataBeats(bs))
    decreases |bs|
  {
    hide DataBeats;
    if bs == [] {
      DataBeatsFirst([0]);
    } else {
      var next := Step(e, st, bs[0]);
      DataBeatsFirst(bs);
      assert (st.log + [DataByte(bs[0])]) + DataBeats(bs[1..]) == st.log + DataBeats(bs);
      assert Fold(e, st, bs) == Fold(e, next, bs[1..]);
      if |bs| == 1 {
        assert bs[1..] == [];
      } else {
        FoldData(e, next, bs[1..]);
        hide Fold;
      }
    }
  }

  lemma {:induction false} FoldHeader(e: Engine, st: Stream, bs: seq<byte>)
    requires st.phase.InHeader? && |st.phase.got| < AES_TAG_SIZE
    requires |st.phase.got| + |bs| <= AES_TAG_SIZE
    ensures Fold(e, st, bs) == Collect(e, st.log, st.phase.first, st.phase.got + bs)
    decreases |bs|
  {
    if bs == [] {
      assert st.phase.got + bs == st.phase.got;
    } else if |bs| == 1 {
      assert bs == [bs[0]] && bs[1..] == [];
    } else {
      FoldHeader(e, Step(e, st, bs[0]), bs[1..]);
      assert (st.phase.got + [bs[0]]) + bs[1..] == st.phase.got + bs;
    }
  }

  lemma {:induction false} FoldStopped(e: Engine, st: Stream, bs: seq<byte>)
    requires st.phase == Finished(false) || st.phase == Rejected
    ensures Fold(e, st, bs) == st
    decreases |bs|
  {
    if bs == [] {
    } else {
      FoldStopped(e, st, bs[1..]);
    }
  }

  /** A first header that announces nothing is followed by another header, if by anything. */
  lemma FoldAgain(e: Engine, st: Stream, bs: seq<byte>)
    requires st.phase == Finished(true) && bs != []
    ensures Fold(e, st, bs) == Fold(e, Stream(InHeader(false, []), st.log), bs)
  {
    assert Step(e, st, bs[0]) == Step(e, Stream(InHeader(false, []), st.log), bs[0]) by {
      assert [] + [bs[0]] == [bs[0]];
    }
  }

  // ---- The block-at-a-time reading of an unsplit stream ----

  /** `s` starts with a header and ends right after the header that announces no further data;
      every run between headers is as long as announced, and every tag is good. */
  ghost predicate WellFormed(e: Engine, log: seq<Beat>, first: bool, s: seq<byte>)
    decreases |s|
  {
    && |s| >= AES_TAG_SIZE
    && var st := AcceptHeader(e, log, first, s[..AES_TAG_SIZE]);
    && !st.phase.Rejected?
    && if st.phase.InData? then
         && |s| > AES_TAG_SIZE + st.phase.left
         && WellFormed(e, st.log + DataBeats(s[AES_TAG_SIZE..AES_TAG_SIZE + st.phase.left]), false,
                       s[AES_TAG_SIZE + st.phase.left..])
       else |s| == AES_TAG_SIZE
  }

  /** The first header of a well-formed stream is 64 bytes long, and the word it announces counts the
      32-bit words of the run: the next header is four times as many bytes behind it. */
  lemma RunIsAnnounced(e: Engine, log: seq<Beat>, first: bool, s: seq<byte>)
    requires WellFormed(e, log, first, s)
    ensures |s| >= 64
    ensures var pushed := log + [SecureHeader(first, s[..48], s[48..64])];
            var words := e.iv3(pushed);
            && e.tagOk(pushed)
            && (words == 0 ==> |s| == 64)
            && (0 < words < 0x4000_0000 ==>
                  var bytes := words + words + words + words;
                  && 64 + bytes + 64 <= |s|
                  && WellFormed(e, pushed + [StartBlock(bytes)] + DataBeats(s[64..64 + bytes]), false, s[64 + bytes..]))
  {
    var raw := s[..AES_TAG_SIZE];
    assert raw[..48] == s[..48] && raw[48..] == s[48..64];
    var words := e.iv3(log + [SecureHeader(first, s[..48], s[48..64])]);
    if 0 < words < 0x4000_0000 {
      WrapSmall(words * 4);
      assert AcceptHeader(e, log, first, raw).phase.left == words + words + words + words;
    }
  }

  /** What one pass over the whole stream gives the engine: header, tag, run, header, tag, ... */
  ghost function OnePass(e: Engine, log: seq<Beat>, first: bool, s: seq<byte>): seq<Beat>
    requires WellFormed(e, log, first, s)
    decreases |s|
  {
    var st := AcceptHeader(e, log, first, s[..AES_TAG_SIZE]);
    if st.phase.InData? then
      OnePass(e, st.log + DataBeats(s[AES_TAG_SIZE..AES_TAG_SIZE + st.phase.left]), false,
              s[AES_TAG_SIZE + st.phase.left..])
    else st.log
  }

  /** The reading of the first header and run of a well-formed stream, and of what follows. */
  lemma FirstBlock(e: Engine, log: seq<Beat>, first: bool, s: seq<byte>, k: nat)
    requires WellFormed(e, log, first, s)
    requires AES_TAG_SIZE <= k <= |s|
    ensures var start, st := Stream(InHeader(first, []), log), AcceptHeader(e, log, first, s[..AES_TAG_SIZE]);
            && Fold(e, start, s[..k]) == Fold(e, st, s[AES_TAG_SIZE..k])
            && (st.phase.InData? && k < AES_TAG_SIZE + st.phase.left ==>
                  Fold(e, start, s[..k]).phase.InData?)
            && (st.phase.InData? && AES_TAG_SIZE + st.phase.left <= k ==>
                  var n := AES_TAG_SIZE + st.phase.left;
                  Fold(e, start, s[..k])
                  == Fold(e, Stream(InHeader(false, []), st.log + DataBeats(s[AES_TAG_SIZE..n])), s[n..k]))
  {
    var start, head := Stream(InHeader(first, []), log), s[..AES_TAG_SIZE];
    assert s[..k] == head + s[AES_TAG_SIZE..k];
    FoldConcat(e, start, head, s[AES_TAG_SIZE..k]);
    FoldHeader(e, start, head);
    assert [] + head == head;
    var st := AcceptHeader(e, log, first, head);
    if st.phase.InData? {
      var n := AES_TAG_SIZE + st.phase.left;
      if k < n {
        FoldData(e, st, s[AES_TAG_SIZE..k]);
      } else {
        assert s[AES_TAG_SIZE..k] == s[AES_TAG_SIZE..n] + s[n..k];
        FoldConcat(e, st, s[AES_TAG_SIZE..n], s[n..k]);
        FoldData(e, st, s[AES_TAG_SIZE..n]);
      }
    }
  }

  /** The two reference readings agree on the whole stream. */
  lemma {:induction false} FoldIsOnePass(e: Engine, log: seq<Beat>, first: bool, s: seq<byte>)
    requires WellFormed(e, log, first, s)
    ensures Fold(e, Stream(InHeader(first, []), log), s).log == OnePass(e, log, first, s)
    ensures Fold(e, Stream(InHeader(first, []), log), s).phase.Finished?
    decreases |s|
  {
    assert s[..|s|] == s;
    FirstBlock(e, log, first, s, |s|);
    var st := AcceptHeader(e, log, first, s[..AES_TAG_SIZE]);
    if st.phase.InData? {
      var n := AES_TAG_SIZE + st.phase.left;
      assert s[n..|s|] == s[n..];
      FoldIsOnePass(e, st.log + DataBeats(s[AES_TAG_SIZE..n]), false, s[n..]);
    } else {
      assert s[AES_TAG_SIZE..|s|] == [];
    }
  }
}
