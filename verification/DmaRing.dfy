/**
 The two threads of the DMA loopback program, each on its own and without a stop, for any number of
 buffers and any increment: buffers 0, inc, 2 * inc, ... are used, and then the program goes round.
 */
module DmaRing {
  import opened Arith

  /** How many buffers the first loop uses. */
  function Used(size: nat, inc: nat): (cnt: nat)
    requires size > 0 && inc > 0
    ensures cnt > 0 && (cnt - 1) * inc < size <= cnt * inc
  {
    (size - 1) / inc + 1
  }

  /** The buffer of the `k`-th transfer started. */
  function Slot(size: nat, inc: nat, k: nat): nat
    requires size > 0 && inc > 0
  {
    k % Used(size, inc) * inc
  }

  /** The buffers of the first `m` transfers, in order. */
  function Slots(size: nat, inc: nat, m: nat): seq<nat>
    requires size > 0 && inc > 0
  {
    seq(m, k requires 0 <= k < m => Slot(size, inc, k))
  }

  /** Where the program steps from the last buffer used. */
  function After(size: nat, inc: nat): nat
    requires size > 0 && inc > 0
  {
    Used(size, inc) * inc % size
  }

  /** The step from the last buffer used leads back to the first. */
  predicate Closes(size: nat, inc: nat)
    requires size > 0 && inc > 0
  {
    size % inc == 0 || inc % size == 0
  }

  /** `k` transfers can be finished without going round a ring that does not close. */
  predicate Fits(size: nat, inc: nat, k: nat)
    requires size > 0 && inc > 0
  {
    Closes(size, inc) || k <= Used(size, inc)
  }

  /** The buffer whose transfer the program waits for after `k` transfers. */
  function Awaited(size: nat, inc: nat, k: nat): nat
    requires size > 0 && inc > 0
  {
    if Fits(size, inc, k + 1) then Slot(size, inc, k) else After(size, inc)
  }

  /** The number of transfers a thread makes: one even if none is asked for. */
  function Transfers(asked: int): nat {
    if asked < 1 then 1 else asked
  }

  /** 0, 1, 2, ... */
  function Numbers(m: nat): seq<int> {
    seq(m, k => k)
  }

  /** The word the transmit thread writes for the `k`-th transfer: the first ones are counted, the others
      computed. */
  function Word(size: nat, inc: nat, k: nat): int
    requires size > 0 && inc > 0
  {
    if k < Used(size, inc) then k else k - Used(size, inc) + size / inc
  }

  function Words(size: nat, inc: nat, m: nat): seq<int>
    requires size > 0 && inc > 0
  {
    seq(m, k requires 0 <= k < m => Word(size, inc, k))
  }

  lemma WordsNext(size: nat, inc: nat, m: nat)
    requires size > 0 && inc > 0
    ensures Words(size, inc, 0) == []
    ensures Words(size, inc, m + 1) == Words(size, inc, m) + [Word(size, inc, m)]
  {
  }

  lemma UsedOrOneMore(size: nat, inc: nat)
    requires size > 0 && inc > 0
    ensures Used(size, inc) == if size % inc == 0 then size / inc else size / inc + 1
  {
    var cnt := Used(size, inc);
    assert (cnt - 1) * inc + inc == cnt * inc;
    if cnt * inc == size {
      DivUnique(size, inc, cnt, 0);
    } else {
      DivUnique(size, inc, cnt - 1, size - (cnt - 1) * inc);
    }
  }

  /** They are 0, 1, 2, ... exactly when the increment divides the ring or none is computed. */
  lemma WordsAreNumbers(size: nat, inc: nat, m: nat)
    requires size > 0 && inc > 0
    ensures Words(size, inc, m) == Numbers(m) <==> size % inc == 0 || m <= Used(size, inc)
  {
    var cnt := Used(size, inc);
    UsedOrOneMore(size, inc);
    hide Used;
    if size % inc != 0 && m > cnt {
      assert Words(size, inc, m)[cnt] == cnt - 1 && Numbers(m)[cnt] == cnt;
    }
  }

  /** One DMA channel: its buffers (their first word) and what has been asked of it. */
  class Channel {
    const size: nat
    const incoming: nat -> int
    const buffer: array<int>
    var started: seq<nat>
    var sent: seq<int>
    var finished: seq<nat>

    ghost predicate Valid()
      reads this
    {
      && buffer.Length == size
      && |sent| == |started|
      && finished <= started
    }

    /** The buffers in progress, oldest first. */
    function InFlight(): seq<nat>
      reads this
      requires Valid()
    {
      started[|finished|..]
    }

    constructor (size: nat, incoming: nat -> int)
      ensures Valid() && fresh(buffer) && started == [] && sent == [] && finished == []
      ensures this.size == size && this.incoming == incoming
    {
      this.size, this.incoming := size, incoming;
      buffer := new int[size](_ => 0);
      started, sent, finished := [], [], [];
    }

    /** START_XFER: only an idle buffer may be started. */
    method Start(id: nat)
      requires Valid() && id < size && id !in InFlight()
      modifies this`started, this`sent
      ensures Valid() && started == old(started) + [id] && sent == old(sent) + [buffer[id]]
    {
      started, sent := started + [id], sent + [buffer[id]];
    }

    /** FINISH_XFER: returns when the transfer in the buffer is over, and not at all if there is
        none; transfers end in the order in which they were started, and nobody waits for another
        than the oldest. On a receive channel the buffer then holds the next word. */
    method Finish(id: nat, receiving: bool) returns (ok: bool)
      requires Valid() && id < size && (id in InFlight() ==> InFlight()[0] == id)
      modifies this`finished, buffer
      ensures Valid() && (ok <==> id in old(InFlight()))
      ensures finished == if ok then old(finished) + [id] else old(finished)
      ensures ok && receiving ==> buffer[id] == incoming(|old(finished)|)
      ensures !(ok && receiving) ==> buffer[..] == old(buffer[..])
    {
      ok := id in InFlight();
      if ok {
        if receiving {
          buffer[id] := incoming(|finished|);
        }
        finished := finished + [id];
      }
    }
  }

  /** The window: of the transfers started, in ring order, all but the last `inProgress` are
      finished. */
  ghost predicate Window(ch: Channel, inc: nat, counter: nat, inProgress: nat)
    reads ch
  {
    && ch.Valid() && ch.size > 0 && inc > 0
    && ch.finished == Slots(ch.size, inc, counter)
    && ch.started == Slots(ch.size, inc, counter + inProgress)
  }

  lemma SlotInRing(size: nat, inc: nat, k: nat)
    requires size > 0 && inc > 0
    ensures Slot(size, inc, k) < size
    ensures Slot(size, inc, k + Used(size, inc)) == Slot(size, inc, k)
  {
    var cnt := Used(size, inc);
    MulMono(k % cnt, cnt - 1, inc);
    ModAdd(cnt, k, cnt);
  }

  /** Slots 0, inc, 2 * inc, ... come round to 0 again exactly when one of `inc` and the size divides
      the other. */
  lemma RingCloses(size: nat, inc: nat)
    requires size > 0 && inc > 0
    ensures After(size, inc) == 0 <==> Closes(size, inc)
    ensures inc <= size ==> After(size, inc) == Used(size, inc) * inc - size < inc
  {
    var cnt := Used(size, inc);
    if inc > size {
      if cnt > 1 {
        MulMono(1, cnt - 1, inc);
      }
      assert size % inc == size by { DivUnique(size, inc, 0, size); }
    } else {
      var over := cnt * inc - size;
      assert (cnt - 1) * inc + inc == cnt * inc;
      assert inc % size == 0 ==> inc == size by {
        if inc < size { DivUnique(inc, size, 0, inc); }
      }
      if over == 0 {
        DivUnique(size, size, 1, 0);
        DivUnique(size, inc, cnt, 0);
      } else {
        DivUnique(cnt * inc, size, 1, over);
        DivUnique(size, inc, cnt - 1, inc - over);
      }
    }
  }

  /** If they do not, the next buffer is one that is never started. */
  lemma NeverStarted(size: nat, inc: nat, m: nat)
    requires size > 0 && inc > 0 && !Closes(size, inc)
    ensures After(size, inc) !in Slots(size, inc, m)
  {
    RingCloses(size, inc);
    var cnt := Used(size, inc);
    if inc > size && cnt > 1 {
      MulMono(1, cnt - 1, inc);
    }
    forall k | 0 <= k < m ensures Slots(size, inc, m)[k] != After(size, inc) {
      if k % cnt > 0 {
        MulMono(1, k % cnt, inc);
      }
    }
  }

  /** The program's step leads to the next slot, or out of the last one. */
  lemma NextSlot(size: nat, inc: nat, k: nat)
    requires size > 0 && inc > 0
    ensures (Slot(size, inc, k) + inc) % size
            == if (k + 1) % Used(size, inc) != 0 then Slot(size, inc, k + 1) else After(size, inc)
  {
    var cnt := Used(size, inc);
    ModNext(cnt, k);
    var a := k % cnt;
    assert a * inc + inc == (a + 1) * inc;
    if a + 1 < cnt {
      MulMono(a + 1, cnt - 1, inc);
      DivUnique((a + 1) * inc, size, 0, (a + 1) * inc);
    }
  }

  /** And so to the buffer the program waits for next. */
  lemma NextAwaited(size: nat, inc: nat, k: nat)
    requires size > 0 && inc > 0 && Fits(size, inc, k + 1)
    ensures (Slot(size, inc, k) + inc) % size == Awaited(size, inc, k + 1)
  {
    var cnt := Used(size, inc);
    NextSlot(size, inc, k);
    RingCloses(size, inc);
    assert (k + 1) % cnt == 0 ==> Slot(size, inc, k + 1) == 0;
    hide Used, After, Slot, Closes;
    if k + 1 < cnt {
      DivUnique(k + 1, cnt, 0, k + 1);
    } else if k + 1 == cnt {
      DivUnique(cnt, cnt, 1, 0);
    }
  }

  /** Two transfers less than a round apart have different slots. */
  lemma SlotsDiffer(size: nat, inc: nat, i: nat, d: nat)
    requires size > 0 && inc > 0 && 0 < d < Used(size, inc)
    ensures Slot(size, inc, i) != Slot(size, inc, i + d)
  {
    var cnt := Used(size, inc);
    ModAdd(cnt, i, d);
    var a, b := i % cnt, (i + d) % cnt;
    if b < a {
      MulMono(b + 1, a, inc);
    } else {
      MulMono(a + 1, b, inc);
    }
  }

  /** In a window that is not full, the next slot is idle. */
  lemma NextIsIdle(ch: Channel, inc: nat, counter: nat, inProgress: nat)
    requires Window(ch, inc, counter, inProgress) && inProgress < Used(ch.size, inc)
    ensures Slot(ch.size, inc, counter + inProgress) !in ch.InFlight()
  {
    forall i | 0 <= i < |ch.InFlight()|
      ensures ch.InFlight()[i] != Slot(ch.size, inc, counter + inProgress)
    {
      assert ch.InFlight()[i] == Slot(ch.size, inc, counter + i);
      SlotsDiffer(ch.size, inc, counter + i, inProgress - i);
      hide Slot, Used;
    }
  }

  /** Starts the next transfer of a window that is not full. */
  method StartNext(ch: Channel, id: nat, ghost inc: nat, ghost counter: nat, ghost inProgress: nat)
    requires Window(ch, inc, counter, inProgress) && inProgress < Used(ch.size, inc)
    requires id == Slot(ch.size, inc, counter + inProgress) < ch.size
    modifies ch`started, ch`sent
    ensures Window(ch, inc, counter, inProgress + 1)
    ensures ch.sent == old(ch.sent) + [ch.buffer[id]]
  {
    NextIsIdle(ch, inc, counter, inProgress);
    ch.Start(id);
  }

  /** The buffer awaited is the oldest in progress, or none that was started. */
  lemma AwaitedIsOldest(ch: Channel, inc: nat, counter: nat, inProgress: nat)
    requires Window(ch, inc, counter, inProgress) && inProgress > 0
    ensures var id := Awaited(ch.size, inc, counter);
            && id < ch.size
            && if Fits(ch.size, inc, counter + 1) then ch.InFlight()[0] == id else id !in ch.started
  {
    if Fits(ch.size, inc, counter + 1) {
      SlotInRing(ch.size, inc, counter);
      assert ch.InFlight()[0] == ch.started[counter];
    } else {
      NeverStarted(ch.size, inc, counter + inProgress);
    }
  }

  /** Waits for the oldest transfer of a window, for ever if the ring has not closed. */
  method FinishOldest(ch: Channel, id: nat, receiving: bool, ghost inc: nat, ghost counter: nat,
                      ghost inProgress: nat)
    returns (ok: bool)
    requires Window(ch, inc, counter, inProgress) && inProgress > 0
    requires id == Awaited(ch.size, inc, counter)
    modifies ch`finished, ch.buffer
    ensures ok <==> Fits(ch.size, inc, counter + 1)
    ensures id < ch.size
    ensures if ok then Window(ch, inc, counter + 1, inProgress - 1) && id == Slot(ch.size, inc, counter)
            else Window(ch, inc, counter, inProgress) && id !in ch.started
    ensures ok && receiving ==> ch.buffer[id] == ch.incoming(counter)
    ensures !receiving ==> ch.buffer[..] == old(ch.buffer[..])
  {
    AwaitedIsOldest(ch, inc, counter, inProgress);
    assert forall i :: 0 <= i < |ch.InFlight()| ==> ch.InFlight()[i] == ch.started[counter + i];
    ok := ch.Finish(id, receiving);
  }

  /** The buffers the first loop visits. */
  function Visited(inc: nat, k: nat): nat {
    k * inc
  }

  lemma FirstVisited(size: nat, inc: nat, k: nat)
    requires size > 0 && inc > 0 && k <= Used(size, inc)
    ensures Visited(inc, 0) == 0 && Visited(inc, k + 1) == Visited(inc, k) + inc
    ensures Visited(inc, k) < size <==> k < Used(size, inc)
    ensures k < Used(size, inc) ==> Visited(inc, k) == Slot(size, inc, k)
  {
    if k < Used(size, inc) {
      MulMono(k, Used(size, inc) - 1, inc);
      DivUnique(k, Used(size, inc), 0, k);
    }
  }

  /** Starts all the buffers, or as many as there are transfers to make. */
  method StartAll(ch: Channel, inc: nat, numTransfers: int, numbered: bool) returns (inProgress: nat)
    requires Window(ch, inc, 0, 0)
    modifies ch`started, ch`sent, ch.buffer
    ensures Window(ch, inc, 0, inProgress)
    ensures var n, cnt := Transfers(numTransfers), Used(ch.size, inc); inProgress == if n < cnt then n else cnt
    ensures numbered ==> ch.sent == Words(ch.size, inc, inProgress)
  {
    assert |ch.sent| == 0;
    ghost var cnt := Used(ch.size, inc);
    WordsNext(ch.size, inc, 0);
    FirstVisited(ch.size, inc, 0);
    hide Slots, Slot, Words, Used, Visited;
    var bufferId := 0;
    inProgress := 0;
    while bufferId < ch.size
      invariant inProgress <= cnt && bufferId == Visited(inc, inProgress) && inProgress < Transfers(numTransfers)
      invariant Window(ch, inc, 0, inProgress)
      invariant numbered ==> ch.sent == Words(ch.size, inc, inProgress)
      decreases ch.size - bufferId
    {
      FirstVisited(ch.size, inc, inProgress);
      if numbered {
        ch.buffer[bufferId] := inProgress;
      }
      WordsNext(ch.size, inc, inProgress);
      StartNext(ch, bufferId, inc, 0, inProgress);
      inProgress := inProgress + 1;
      if inProgress >= numTransfers {
        return;
      }
      bufferId := bufferId + inc;
    }
    FirstVisited(ch.size, inc, inProgress);
  }

  /** The two bounds of a thread's window: no more than the buffers used, no more than are asked for. */
  ghost predicate Running(ch: Channel, inc: nat, goal: nat, counter: nat, inProgress: nat)
    reads ch
  {
    && Window(ch, inc, counter, inProgress)
    && 0 < inProgress <= Used(ch.size, inc) && counter + inProgress <= goal
    && (inProgress == Used(ch.size, inc) || counter + inProgress == goal)
    && Fits(ch.size, inc, counter)
  }

  /** What a thread leaves behind: all the transfers made if they fit the ring; otherwise it waits,
      after as many as there are buffers in use, for one that was never started. */
  ghost predicate Left(ch: Channel, inc: nat, goal: nat, ok: bool)
    reads ch
    requires ch.size > 0 && inc > 0
  {
    && (ok <==> Fits(ch.size, inc, goal))
    && (ok ==> ch.started == ch.finished == Slots(ch.size, inc, goal))
    && (!ok ==>
          var cnt := Used(ch.size, inc);
          && ch.finished == Slots(ch.size, inc, cnt)
          && ch.started == Slots(ch.size, inc, if goal < 2 * cnt then goal else 2 * cnt)
          && After(ch.size, inc) !in ch.started)
  }

  lemma LeavesDone(ch: Channel, inc: nat, goal: nat)
    requires Window(ch, inc, goal, 0) && Fits(ch.size, inc, goal)
    ensures Left(ch, inc, goal, true) && |ch.finished| == goal
  {
  }

  lemma LeavesWaiting(ch: Channel, inc: nat, goal: nat, counter: nat, inProgress: nat)
    requires Running(ch, inc, goal, counter, inProgress) && !Fits(ch.size, inc, counter + 1)
    ensures Left(ch, inc, goal, false) && |ch.finished| == counter
  {
    NeverStarted(ch.size, inc, counter + inProgress);
  }

  /** Nothing is finished yet: the first buffer is awaited. */
  lemma FirstAwaited(size: nat, inc: nat)
    requires size > 0 && inc > 0
    ensures Awaited(size, inc, 0) == 0 && Fits(size, inc, 0)
  {
  }

  /** Starts the buffer just finished again, with verification after writing its word. */
  method Restart(ch: Channel, id: nat, inc: nat, counter: nat, ghost inProgress: nat, verify: bool)
    requires Window(ch, inc, counter, inProgress) && inProgress + 1 == Used(ch.size, inc)
    requires id == Slot(ch.size, inc, counter + inProgress) < ch.size
    requires verify ==> ch.sent == Words(ch.size, inc, counter + inProgress) && counter > 0
    modifies ch`started, ch`sent, ch.buffer
    ensures Window(ch, inc, counter, inProgress + 1)
    ensures verify ==> ch.sent == Words(ch.size, inc, counter + inProgress + 1)
  {
    WordsNext(ch.size, inc, counter + inProgress);
    hide Slots, Slot, Words, Used;
    if verify {
      ch.buffer[id] := ch.size / inc - 1 + counter;
    }
    StartNext(ch, id, inc, counter, inProgress);
  }

  /** The transmit thread: every transfer is started once and finished once, in ring order, as long as
      the transfers fit the ring; then with verification the `k`-th carries the number `k` if and only
      if the increment divides the ring or no buffer is started twice. */
  method TxThread(ch: Channel, inc: nat, numTransfers: int, verify: bool) returns (ok: bool)
    requires Window(ch, inc, 0, 0)
    modifies ch, ch.buffer
    ensures Left(ch, inc, Transfers(numTransfers), ok)
    ensures verify ==> ch.sent == Words(ch.size, inc, |ch.started|)
    ensures verify && ok ==>
              (ch.sent == Numbers(Transfers(numTransfers))
               <==> ch.size % inc == 0 || Transfers(numTransfers) <= Used(ch.size, inc))
  {
    ghost var goal := Transfers(numTransfers);
    WordsAreNumbers(ch.size, inc, goal);
    hide Slots, Slot, Words, Numbers, Used, Fits, Left, Awaited, Closes, After;
    var inProgress := StartAll(ch, inc, numTransfers, verify);
    var counter, bufferId := 0, 0;
    FirstAwaited(ch.size, inc);
    while true
      invariant 0 <= counter && 0 <= inProgress && Running(ch, inc, goal, counter, inProgress)
      invariant bufferId == Awaited(ch.size, inc, counter)
      invariant verify ==> ch.sent == Words(ch.size, inc, counter + inProgress)
      decreases goal - counter
    {
      ok := FinishOldest(ch, bufferId, false, inc, counter, inProgress);
      if !ok {
        LeavesWaiting(ch, inc, goal, counter, inProgress);
        return;
      }
      SlotInRing(ch.size, inc, counter);
      NextAwaited(ch.size, inc, counter);
      inProgress, counter := inProgress - 1, counter + 1;
      if counter >= numTransfers {
        LeavesDone(ch, inc, goal);
        return;
      }
      if counter + inProgress < numTransfers {
        Restart(ch, bufferId, inc, counter, inProgress, verify);
        inProgress := inProgress + 1;
      }
      bufferId := (bufferId + inc) % ch.size;
    }
  }

  /** The receive thread, on the same ring discipline; with verification on it reports the
      transfers whose first word is not their number. */
  method RxThread(ch: Channel, inc: nat, numTransfers: int, verify: bool) returns (ok: bool, mismatches: set<nat>)
    requires Window(ch, inc, 0, 0)
    modifies ch, ch.buffer
    ensures Left(ch, inc, Transfers(numTransfers), ok)
    ensures mismatches == set k: nat | k < |ch.finished| && verify && ch.incoming(k) != k
  {
    ghost var goal := Transfers(numTransfers);
    hide Slots, Slot, Used, Fits, Left, Awaited, Closes, After;
    var inProgress := StartAll(ch, inc, numTransfers, false);
    var rxCounter, bufferId := 0, 0;
    FirstAwaited(ch.size, inc);
    mismatches := {};
    while true
      invariant 0 <= rxCounter && 0 <= inProgress && Running(ch, inc, goal, rxCounter, inProgress)
      invariant bufferId == Awaited(ch.size, inc, rxCounter)
      invariant mismatches == set k: nat | k < rxCounter && verify && ch.incoming(k) != k
      decreases goal - rxCounter
    {
      ok := FinishOldest(ch, bufferId, true, inc, rxCounter, inProgress);
      if !ok {
        LeavesWaiting(ch, inc, goal, rxCounter, inProgress);
        return;
      }
      SlotInRing(ch.size, inc, rxCounter);
      NextAwaited(ch.size, inc, rxCounter);
      if verify && ch.buffer[bufferId] != rxCounter {
        mismatches := mismatches + {rxCounter};
      }
      inProgress, rxCounter := inProgress - 1, rxCounter + 1;
      if rxCounter >= numTransfers {
        LeavesDone(ch, inc, goal);
        return;
      }
      if rxCounter + inProgress < numTransfers {
        StartNext(ch, bufferId, inc, rxCounter, inProgress);
        inProgress := inProgress + 1;
      }
      bufferId := (bufferId + inc) % ch.size;
    }
  }

  lemma MismatchesTell(words: seq<int>, goal: nat, mismatches: set<nat>)
    requires |words| == goal
    requires mismatches == set k: nat | k < goal && words[k] != k
    ensures mismatches == {} <==> words == Numbers(goal)
  {
    if words != Numbers(goal) {
      var k :| 0 <= k < goal && words[k] != Numbers(goal)[k];
      assert k in mismatches;
    } else {
      assert forall k :: 0 <= k < goal ==> words[k] == Numbers(goal)[k];
    }
  }

  /** The loopback, first all the sending and then all the receiving, whatever the sizes of the two
      rings: it ends if and only if the transfers fit both, and then there is no mismatch if and only
      if the words sent are the numbers. */
  method Loopback(txSize: nat, txInc: nat, rxSize: nat, rxInc: nat, numTransfers: int)
    returns (ok: bool, mismatches: set<nat>)
    requires txSize > 0 && txInc > 0 && rxSize > 0 && rxInc > 0
    ensures ok <==> Fits(txSize, txInc, Transfers(numTransfers)) && Fits(rxSize, rxInc, Transfers(numTransfers))
    ensures ok ==> (mismatches == {} <==> txSize % txInc == 0 || Transfers(numTransfers) <= Used(txSize, txInc))
  {
    ghost var goal := Transfers(numTransfers);
    mismatches := {};
    var tx := new Channel(txSize, _ => 0);
    ok := TxThread(tx, txInc, numTransfers, true);
    if !ok {
      return;
    }
    var words := tx.sent;
    var rx := new Channel(rxSize, (k: nat) => if k < |words| then words[k] else 0);
    ok, mismatches := RxThread(rx, rxInc, numTransfers, true);
    if ok {
      MismatchesTell(words, goal, mismatches);
    }
  }
}
