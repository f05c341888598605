/**
 The transmit and receive threads of the DMA loopback program and the channel between them, as
 shipped: one transmit buffer, `n` receive buffers, every buffer used. One step is one access to
 the channel or to the variables the threads share.
 */
module DmaShutdown {
  import opened Arith

  datatype Slot = Idle | Posted | Filled(word: int)

  datatype TxPc =
    | TxPost
    | TxFinish
    | TxCheckDone
    | TxCheckStop
    | TxSetTarget
    | TxMore
    | TxRestart
    | TxExit

  datatype RxPc =
    | RxPost
    | RxPostCheck
    | RxFinish
    | RxCheckDone
    | RxMore
    | RxRestart
    | RxExit

  /** `target` is the shared number of transfers, `slots` the receive buffers, and `queue` those of
      them the channel still has to fill, oldest first. The transmit buffer is busy while
      `counter < sent`. */
  datatype State = State(
    target: int, stop: bool,
    tpc: TxPc, counter: nat, txInProgress: int, stopInProgress: bool,
    txWord: int, sent: nat, delivered: nat,
    rpc: RxPc, rxCounter: nat, rxInProgress: int, rxBuffer: nat,
    slots: seq<Slot>, queue: seq<nat>, mismatch: bool)

  function Init(n: nat, transfers: int): State {
    State(transfers, false, TxPost, 0, 0, false, 0, 0, 0, RxPost, 0, 0, 0, seq(n, _ => Idle), [], false)
  }

  ghost predicate Shaped(n: nat, s: State) {
    && |s.slots| == n
    && s.rxBuffer < n
    && forall i :: 0 <= i < |s.queue| ==> s.queue[i] < n
  }

  /** Which slot the `k`-th receive uses. */
  function SlotOf(n: nat, k: nat): (b: nat)
    requires n > 0
    ensures b < n
  {
    k % n
  }

  // ---- The steps ----

  /** FINISH blocks until the transfer in the buffer is over, for ever if there is none. */
  predicate TxEnabled(s: State) {
    s.tpc != TxExit && (s.tpc == TxFinish ==> s.counter < s.sent == s.delivered)
  }

  function TxStep(n: nat, s: State): State
  {
    match s.tpc
    case TxPost =>
      s.(txWord := s.txInProgress, sent := s.sent + 1, txInProgress := s.txInProgress + 1, tpc := TxFinish)
    case TxFinish => s.(txInProgress := s.txInProgress - 1, counter := s.counter + 1, tpc := TxCheckDone)
    case TxCheckDone => s.(tpc := if s.counter >= s.target then TxExit else TxCheckStop)
    case TxCheckStop => s.(tpc := if s.stop && !s.stopInProgress then TxSetTarget else TxMore)
    case TxSetTarget => s.(stopInProgress := true, target := s.counter + n, tpc := TxMore)
    case TxMore => s.(tpc := if s.counter + s.txInProgress >= s.target then TxFinish else TxRestart)
    case TxRestart =>
      s.(txWord := s.counter, sent := s.sent + 1, txInProgress := s.txInProgress + 1, tpc := TxFinish)
    case TxExit => s
  }

  ghost predicate RxEnabled(n: nat, s: State)
    requires Shaped(n, s)
  {
    s.rpc != RxExit && (s.rpc == RxFinish ==> s.slots[s.rxBuffer].Filled?)
  }

  ghost function RxStep(n: nat, s: State): State
    requires Shaped(n, s) && RxEnabled(n, s)
  {
    var posted := s.(slots := s.slots[s.rxBuffer := Posted], queue := s.queue + [s.rxBuffer],
                     rxInProgress := s.rxInProgress + 1);
    var next := (s.rxBuffer + 1) % n;
    match s.rpc
    case RxPost => posted.(rpc := RxPostCheck)
    case RxPostCheck =>
      if s.rxInProgress >= s.target || s.rxBuffer + 1 == n then s.(rxBuffer := 0, rpc := RxFinish)
      else s.(rxBuffer := s.rxBuffer + 1, rpc := RxPost)
    case RxFinish =>
      s.(mismatch := s.mismatch || s.slots[s.rxBuffer].word != s.rxCounter,
         slots := s.slots[s.rxBuffer := Idle],
         rxInProgress := s.rxInProgress - 1, rxCounter := s.rxCounter + 1, rpc := RxCheckDone)
    case RxCheckDone => s.(rpc := if s.rxCounter >= s.target then RxExit else RxMore)
    case RxMore =>
      if s.rxCounter + s.rxInProgress >= s.target then s.(rxBuffer := next, rpc := RxFinish)
      else s.(rpc := RxRestart)
    case RxRestart => posted.(rxBuffer := next, rpc := RxFinish)
  }

  /** The channel carries the word being sent into the oldest posted receive buffer, once there is
      both. */
  predicate CanDeliver(s: State) {
    s.queue != [] && s.delivered < s.sent
  }

  ghost function Deliver(n: nat, s: State): State
    requires Shaped(n, s) && CanDeliver(s)
  {
    s.(slots := s.slots[s.queue[0] := Filled(s.txWord)], queue := s.queue[1..], delivered := s.delivered + 1)
  }

  /** A step of a thread or of the channel. */
  ghost predicate Work(n: nat, s: State, t: State) {
    && n > 0 && Shaped(n, s)
    && (|| (TxEnabled(s) && t == TxStep(n, s))
        || (RxEnabled(n, s) && t == RxStep(n, s))
        || (CanDeliver(s) && t == Deliver(n, s)))
  }

  /** Ctrl-C. */
  predicate Interrupt(s: State, t: State) {
    !s.stop && t == s.(stop := true)
  }

  ghost predicate Next(n: nat, s: State, t: State) {
    Work(n, s, t) || Interrupt(s, t)
  }

  // ---- What every step keeps ----

  /** How many transfers there will be: one even if none was asked for. */
  function Goal(s: State): int {
    if s.target < 1 then 1 else s.target
  }

  function Least(a: int, b: int): int {
    if a <= b then a else b
  }

  /** How many receives have been started. */
  function Started(s: State): int {
    s.rxCounter + s.rxInProgress
  }

  ghost predicate TxInv(s: State) {
    && s.counter <= s.delivered <= s.sent <= Goal(s)
    && match s.tpc {
         case TxPost => s.sent == 0 && s.txInProgress == 0
         case TxFinish => s.sent == s.counter + 1 && s.txInProgress == 1 && s.txWord == s.counter
         case TxCheckDone => s.sent == s.counter > 0 && s.txInProgress == 0
         case TxSetTarget => s.sent == s.counter < s.target && s.txInProgress == 0 && !s.stopInProgress
         case TxExit => s.sent == s.counter == Goal(s) && s.txInProgress == 0
         case _ => s.sent == s.counter < s.target && s.txInProgress == 0
       }
  }

  ghost predicate RxInv(n: nat, s: State)
    requires n > 0
  {
    && s.rxCounter <= s.delivered <= Started(s) <= Goal(s)
    && Started(s) <= s.rxCounter + n
    && match s.rpc {
         case RxPost => s.rxCounter == 0 && s.rxInProgress == s.rxBuffer < Least(n, Goal(s))
         case RxPostCheck => s.rxCounter == 0 && s.rxInProgress == s.rxBuffer + 1 <= n
         case RxFinish =>
           && s.rxCounter < Goal(s) && Started(s) == Least(s.rxCounter + n, Goal(s))
           && s.rxBuffer == SlotOf(n, s.rxCounter)
         case RxCheckDone =>
           && s.rxCounter > 0 && Started(s) == Least(s.rxCounter - 1 + n, Goal(s))
           && s.rxBuffer == SlotOf(n, s.rxCounter - 1)
         case RxMore =>
           && 0 < s.rxCounter < s.target && Started(s) == Least(s.rxCounter - 1 + n, Goal(s))
           && s.rxBuffer == SlotOf(n, s.rxCounter - 1)
         case RxRestart =>
           && s.rxCounter > 0 && Started(s) == s.rxCounter - 1 + n < s.target
           && s.rxBuffer == SlotOf(n, s.rxCounter - 1)
         case RxExit => s.rxCounter == Started(s) == Goal(s)
       }
  }

  /** What the slot of the `k`-th receive holds. */
  ghost predicate SlotInv(n: nat, s: State, k: nat)
    requires n > 0 && |s.slots| == n
  {
    s.slots[SlotOf(n, k)] ==
    if k < s.delivered then Filled(k) else if k < Started(s) then Posted else Idle
  }

  /** The ring: the receives in progress use the consecutive slots from the one to finish next,
      filled in order with the words 0, 1, 2, ... */
  ghost predicate Ring(n: nat, s: State)
    requires n > 0
  {
    && |s.slots| == n
    && (forall k: nat :: s.rxCounter <= k < s.rxCounter + n ==> SlotInv(n, s, k))
    && |s.queue| == Started(s) - s.delivered
    && (forall i :: 0 <= i < |s.queue| ==> s.queue[i] == SlotOf(n, s.delivered + i))
    && !s.mismatch
  }

  ghost predicate Inv(n: nat, s: State) {
    n > 0 && s.rxBuffer < n && TxInv(s) && RxInv(n, s) && Ring(n, s)
  }

  /** The stop is seen while at least `n` transfers remain. */
  predicate InTime(n: nat, s: State) {
    s.tpc == TxSetTarget ==> s.counter + n <= s.target
  }

  lemma InvShaped(n: nat, s: State)
    requires Inv(n, s)
    ensures Shaped(n, s)
  {
    forall i | 0 <= i < |s.queue| ensures s.queue[i] < n {
      assert s.queue[i] == SlotOf(n, s.delivered + i);
    }
  }

  lemma SlotsApart(n: nat, i: nat, j: nat)
    requires n > 0 && i < j < i + n
    ensures SlotOf(n, i) != SlotOf(n, j)
  {
    ModAdd(n, i, j - i);
  }

  lemma SlotWraps(n: nat, k: nat)
    requires n > 0
    ensures SlotOf(n, k + n) == SlotOf(n, k)
    ensures SlotOf(n, k + 1) == (SlotOf(n, k) + 1) % n
    ensures k < n ==> SlotOf(n, k) == k
  {
    ModAdd(n, k, n);
    ModNext(n, k);
    if k < n {
      DivUnique(k, n, 0, k);
    }
  }

  lemma InitInv(n: nat, transfers: int)
    requires n > 0
    ensures Inv(n, Init(n, transfers))
  {
  }

  /** Ring speaks of the buffers and the receive counters only. */
  lemma RingSame(n: nat, s: State, t: State)
    requires n > 0 && Ring(n, s)
    requires t.slots == s.slots && t.queue == s.queue && t.delivered == s.delivered && t.mismatch == s.mismatch
    requires t.rxCounter == s.rxCounter && t.rxInProgress == s.rxInProgress
    ensures Ring(n, t)
  {
    assert forall k: nat :: SlotInv(n, t, k) <==> SlotInv(n, s, k);
  }

  lemma RxSame(n: nat, s: State, t: State)
    requires n > 0 && RxInv(n, s) && t.delivered == s.delivered
    requires t.rpc == s.rpc && t.rxCounter == s.rxCounter && t.rxInProgress == s.rxInProgress
    requires t.rxBuffer == s.rxBuffer && t.target == s.target
    ensures RxInv(n, t)
  {
  }

  /** Lowering the target while at least `n` transfers remain leaves the receive window as it is. */
  lemma TargetKeepsRx(n: nat, s: State)
    requires Inv(n, s) && s.tpc == TxSetTarget && InTime(n, s)
    ensures RxInv(n, TxStep(n, s))
  {
    hide Ring, SlotOf;
  }

  lemma TxKeepsCounters(n: nat, s: State)
    requires n > 0 && TxInv(s) && TxEnabled(s) && InTime(n, s)
    ensures TxInv(TxStep(n, s))
  {
  }

  lemma TxFrame(n: nat, s: State)
    ensures var t := TxStep(n, s);
            && t.rpc == s.rpc && t.rxCounter == s.rxCounter && t.rxInProgress == s.rxInProgress
            && t.rxBuffer == s.rxBuffer && t.delivered == s.delivered && t.mismatch == s.mismatch
            && t.slots == s.slots && t.queue == s.queue
            && (s.tpc != TxSetTarget ==> t.target == s.target)
  {
  }

  lemma TxKeeps(n: nat, s: State)
    requires Inv(n, s) && TxEnabled(s) && InTime(n, s)
    ensures Inv(n, TxStep(n, s))
  {
    TxFrame(n, s);
    TxKeepsCounters(n, s);
    if s.tpc == TxSetTarget {
      TargetKeepsRx(n, s);
    }
    hide Ring, RxInv, TxInv, TxStep, TxEnabled, InTime;
    RingSame(n, s, TxStep(n, s));
    if s.tpc != TxSetTarget {
      RxSame(n, s, TxStep(n, s));
    }
  }

  lemma DeliverKeeps(n: nat, s: State)
    requires Inv(n, s) && Shaped(n, s) && CanDeliver(s)
    ensures Inv(n, Deliver(n, s))
  {
    var t := Deliver(n, s);
    forall k: nat | t.rxCounter <= k < t.rxCounter + n ensures SlotInv(n, t, k) {
      assert SlotInv(n, s, k);
      if k < s.delivered {
        SlotsApart(n, k, s.delivered);
      } else if k > s.delivered {
        SlotsApart(n, s.delivered, k);
      }
    }
    forall i | 0 <= i < |t.queue| ensures t.queue[i] == SlotOf(n, t.delivered + i) {
      assert t.queue[i] == s.queue[i + 1];
    }
  }

  /** Starting the next receive in its slot. */
  lemma StartKeepsRing(n: nat, s: State, t: State)
    requires n > 0 && Ring(n, s) && s.rxCounter <= s.delivered <= Started(s) < s.rxCounter + n
    requires t.slots == s.slots[SlotOf(n, Started(s)) := Posted] && t.queue == s.queue + [SlotOf(n, Started(s))]
    requires t.rxCounter == s.rxCounter && t.rxInProgress == s.rxInProgress + 1
    requires t.delivered == s.delivered && t.mismatch == s.mismatch
    ensures Ring(n, t)
  {
    var p := Started(s);
    forall k: nat | t.rxCounter <= k < t.rxCounter + n ensures SlotInv(n, t, k) {
      assert SlotInv(n, s, k);
      if k < p {
        SlotsApart(n, k, p);
      } else if k > p {
        SlotsApart(n, p, k);
      }
    }
  }

  /** Finishing the oldest receive. */
  lemma FinishKeepsRing(n: nat, s: State)
    requires Inv(n, s) && Shaped(n, s) && RxEnabled(n, s) && s.rpc == RxFinish
    ensures s.rxCounter < s.delivered && Ring(n, RxStep(n, s))
  {
    var t, r := RxStep(n, s), s.rxCounter;
    assert SlotInv(n, s, r);
    forall k: nat | r + 1 <= k < r + 1 + n ensures SlotInv(n, t, k) {
      if k < r + n {
        assert SlotInv(n, s, k);
        SlotsApart(n, r, k);
      } else {
        SlotWraps(n, r);
      }
    }
  }

  lemma RxKeepsRing(n: nat, s: State)
    requires Inv(n, s) && Shaped(n, s) && RxEnabled(n, s)
    ensures Ring(n, RxStep(n, s))
  {
    var t := RxStep(n, s);
    match s.rpc {
      case RxPost =>
        SlotWraps(n, s.rxBuffer);
        StartKeepsRing(n, s, t);
      case RxRestart =>
        SlotWraps(n, s.rxCounter - 1);
        StartKeepsRing(n, s, t);
      case RxFinish =>
        FinishKeepsRing(n, s);
      case _ =>
        RingSame(n, s, t);
    }
  }

  lemma RxKeepsCounters(n: nat, s: State)
    requires Inv(n, s) && Shaped(n, s) && RxEnabled(n, s) && (s.rpc == RxFinish ==> s.rxCounter < s.delivered)
    ensures RxInv(n, RxStep(n, s))
  {
    if s.rpc == RxMore || s.rpc == RxRestart {
      SlotWraps(n, s.rxCounter - 1);
    } else if s.rpc == RxPostCheck {
      SlotWraps(n, 0);
    }
    hide Ring, SlotOf, SlotInv, TxInv;
  }

  lemma RxFrame(n: nat, s: State)
    requires Shaped(n, s) && RxEnabled(n, s)
    ensures var t := RxStep(n, s);
            && t.rxBuffer < n && t.target == s.target
            && t.tpc == s.tpc && t.counter == s.counter && t.sent == s.sent && t.delivered == s.delivered
            && t.txInProgress == s.txInProgress && t.txWord == s.txWord
            && t.stopInProgress == s.stopInProgress
  {
  }

  lemma TxSame(s: State, t: State)
    requires TxInv(s) && t.target == s.target
    requires t.tpc == s.tpc && t.counter == s.counter && t.sent == s.sent && t.delivered == s.delivered
    requires t.txInProgress == s.txInProgress && t.txWord == s.txWord && t.stopInProgress == s.stopInProgress
    ensures TxInv(t)
  {
  }

  lemma RxKeeps(n: nat, s: State)
    requires Inv(n, s) && Shaped(n, s) && RxEnabled(n, s)
    ensures Inv(n, RxStep(n, s))
  {
    if s.rpc == RxFinish {
      FinishKeepsRing(n, s);
    }
    hide Ring, RxInv, TxInv, RxStep;
    RxKeepsRing(n, s);
    RxKeepsCounters(n, s);
    RxFrame(n, s);
    TxSame(s, RxStep(n, s));
  }

  lemma NextKeeps(n: nat, s: State, t: State)
    requires Inv(n, s) && InTime(n, s) && Next(n, s, t)
    ensures Inv(n, t)
  {
    InvShaped(n, s);
    if Interrupt(s, t) {
      RingSame(n, s, t);
    } else {
      hide Ring, TxInv, RxInv, TxStep, RxStep, Deliver, TxEnabled, RxEnabled, CanDeliver, Inv, InTime;
      if TxEnabled(s) && t == TxStep(n, s) {
        TxKeeps(n, s);
      } else if RxEnabled(n, s) && t == RxStep(n, s) {
        RxKeeps(n, s);
      } else {
        DeliverKeeps(n, s);
      }
    }
  }

  // ---- Whole runs ----

  ghost predicate Run(n: nat, run: seq<State>) {
    && run != []
    && forall i :: 0 <= i < |run| - 1 ==> Next(n, run[i], run[i + 1])
  }

  /** In this run the stop was seen, if at all, while at least `n` transfers remained. */
  ghost predicate StopsInTime(n: nat, run: seq<State>) {
    forall i :: 0 <= i < |run| ==> InTime(n, run[i])
  }

  ghost predicate CanWork(n: nat, s: State)
    requires Shaped(n, s)
  {
    TxEnabled(s) || RxEnabled(n, s) || CanDeliver(s)
  }

  /** Both threads have left, nothing is in progress, and everyone has counted to the target. */
  ghost predicate Drained(n: nat, s: State) {
    && s.tpc == TxExit && s.rpc == RxExit
    && s.counter == s.rxCounter == s.sent == s.delivered == Goal(s)
    && s.txInProgress == s.rxInProgress == 0
    && s.queue == [] && s.slots == seq(n, _ => Idle)
  }

  /** START finds an idle buffer and FINISH a started one, in both threads. */
  ghost predicate CallsAreSound(n: nat, s: State)
    requires Shaped(n, s)
  {
    && (s.tpc == TxPost || s.tpc == TxRestart ==> s.counter == s.sent)
    && (s.tpc == TxFinish ==> s.counter < s.sent)
    && (s.rpc == RxPost || s.rpc == RxRestart ==> s.slots[s.rxBuffer] == Idle)
    && (s.rpc == RxFinish ==> s.slots[s.rxBuffer] != Idle)
  }

  lemma InvCalls(n: nat, s: State)
    requires Inv(n, s) && Shaped(n, s)
    ensures CallsAreSound(n, s)
  {
    match s.rpc {
      case RxPost =>
        SlotWraps(n, s.rxBuffer);
        assert SlotInv(n, s, s.rxBuffer);
      case RxRestart =>
        SlotWraps(n, s.rxCounter - 1);
        assert SlotInv(n, s, Started(s));
      case RxFinish =>
        assert SlotInv(n, s, s.rxCounter);
      case _ =>
    }
  }

  /** No deadlock: while somebody is still waiting, somebody can work. */
  lemma InvLive(n: nat, s: State)
    requires Inv(n, s) && Shaped(n, s)
    ensures CanWork(n, s) || Drained(n, s)
  {
    if s.rpc == RxFinish {
      assert SlotInv(n, s, s.rxCounter);
    }
    if s.tpc == TxExit && s.rpc == RxExit {
      forall b | 0 <= b < n ensures s.slots[b] == Idle {
        var k := TurnTo(n, s.rxCounter, b);
        assert SlotInv(n, s, k);
      }
    }
  }

  /** The receive, among the next `n`, that uses slot `b`. */
  lemma TurnTo(n: nat, r: nat, b: nat) returns (k: nat)
    requires b < n
    ensures r <= k < r + n && SlotOf(n, k) == b
  {
    var a := r % n;
    if b >= a {
      k := r + (b - a);
      ModAdd(n, r, b - a);
    } else {
      k := r + (b + n - a);
      ModAdd(n, r, b + n - a);
    }
  }

  function TxRank(pc: TxPc): nat {
    match pc
    case TxFinish => 0
    case TxCheckDone => 7
    case TxCheckStop => 6
    case TxSetTarget => 5
    case TxMore => 4
    case TxRestart => 3
    case TxPost => 1
    case TxExit => 0
  }

  function RxRank(n: nat, s: State): int {
    match s.rpc
    case RxFinish => 0
    case RxCheckDone => 7
    case RxMore => 6
    case RxRestart => 5
    case RxPost => 2 * (n - s.rxBuffer) + 1
    case RxPostCheck => 2 * (n - s.rxBuffer)
    case RxExit => 0
  }

  /** How much there is left to do, at most. */
  function Left(n: nat, s: State): int {
    8 * (Goal(s) - s.counter) + TxRank(s.tpc) + 8 * (Goal(s) - s.rxCounter) + RxRank(n, s)
    + (Goal(s) - s.delivered) + (if s.stop then 0 else 1)
  }

  lemma InvLeft(n: nat, s: State)
    requires Inv(n, s)
    ensures 0 <= Left(n, s)
  {
    hide Ring, SlotOf;
  }

  lemma TxWorks(n: nat, s: State)
    requires n > 0 && TxInv(s) && TxEnabled(s) && InTime(n, s)
    ensures Left(n, TxStep(n, s)) < Left(n, s)
  {
    var t := TxStep(n, s);
    assert RxRank(n, t) == RxRank(n, s) && t.delivered == s.delivered && t.rxCounter == s.rxCounter && t.stop == s.stop;
    hide RxRank;
  }

  lemma RxWorks(n: nat, s: State)
    requires n > 0 && Shaped(n, s) && RxEnabled(n, s)
    ensures Left(n, RxStep(n, s)) < Left(n, s)
  {
  }

  lemma OtherWorks(n: nat, s: State, t: State)
    requires Inv(n, s) && Shaped(n, s)
    requires Interrupt(s, t) || (CanDeliver(s) && t == Deliver(n, s))
    ensures Left(n, t) < Left(n, s)
  {
    hide Inv, Shaped;
  }

  lemma NextWorks(n: nat, s: State, t: State)
    requires Inv(n, s) && InTime(n, s) && Next(n, s, t)
    ensures 0 <= Left(n, t) < Left(n, s)
  {
    InvShaped(n, s);
    NextKeeps(n, s, t);
    InvLeft(n, t);
    hide Ring, RxInv, TxInv, TxStep, RxStep, InTime, Left, Deliver, CanDeliver, TxEnabled, RxEnabled, Shaped, Interrupt;
    if TxEnabled(s) && t == TxStep(n, s) {
      TxWorks(n, s);
    } else if RxEnabled(n, s) && t == RxStep(n, s) {
      RxWorks(n, s);
    } else {
      OtherWorks(n, s, t);
    }
  }

  lemma {:induction false} RunKeeps(n: nat, run: seq<State>, i: nat)
    requires n > 0 && Run(n, run) && Inv(n, run[0]) && StopsInTime(n, run) && i < |run|
    ensures Inv(n, run[i]) && 0 <= Left(n, run[i]) <= Left(n, run[0]) - i
    decreases i
  {
    if i == 0 {
      InvLeft(n, run[0]);
    } else {
      RunKeeps(n, run, i - 1);
      assert Next(n, run[i - 1], run[i]) && InTime(n, run[i - 1]);
      hide Next, Inv, Left, InTime;
      NextKeeps(n, run[i - 1], run[i]);
      NextWorks(n, run[i - 1], run[i]);
    }
  }

  lemma TargetStep(n: nat, s: State, t: State)
    requires Next(n, s, t)
    ensures s.tpc == TxSetTarget && t.tpc != TxSetTarget ==> t.target == s.counter + n && t.stopInProgress
    ensures s.tpc != TxSetTarget ==> t.target == s.target && t.stopInProgress == s.stopInProgress
    ensures s.tpc != TxSetTarget && t.tpc == TxSetTarget ==> !s.stopInProgress
  {
    if TxEnabled(s) && t == TxStep(n, s) {
    } else if !Interrupt(s, t) && CanDeliver(s) && t == Deliver(n, s) {
    } else {
      hide TxStep, Deliver;
    }
  }

  /** Once the transmit thread has acted on the stop the target is fixed: as many transfers as it
      had finished then, and one more for every receive buffer. */
  lemma {:induction false} TargetIsRewritten(n: nat, run: seq<State>, i: nat, j: nat)
    requires Run(n, run) && i < j < |run|
    requires run[i].tpc == TxSetTarget && run[i + 1].tpc != TxSetTarget
    ensures run[j].target == run[i].counter + n && run[j].stopInProgress && run[j].tpc != TxSetTarget
    decreases j
  {
    hide Next;
    TargetStep(n, run[j - 1], run[j]);
    if j <= i + 1 {
    } else {
      TargetIsRewritten(n, run, i, j - 1);
    }
  }

  /** Graceful shutdown: in every interleaving in which a stop is seen while at least `n` transfers
      remain, every call is sound, no received word is wrong, the run is finite, and it can only
      come to rest with both threads gone and nothing in progress. */
  lemma GracefulShutdown(n: nat, transfers: int, run: seq<State>)
    requires n > 0 && Run(n, run) && run[0] == Init(n, transfers) && StopsInTime(n, run)
    ensures forall i :: 0 <= i < |run| ==>
              && Shaped(n, run[i]) && CallsAreSound(n, run[i]) && !run[i].mismatch
              && (CanWork(n, run[i]) || Drained(n, run[i]))
    ensures |run| <= Left(n, run[0]) + 1
  {
    InitInv(n, transfers);
    RunKeeps(n, run, |run| - 1);
    forall i | 0 <= i < |run|
      ensures && Shaped(n, run[i]) && CallsAreSound(n, run[i]) && !run[i].mismatch
              && (CanWork(n, run[i]) || Drained(n, run[i]))
    {
      RunKeeps(n, run, i);
      InvShaped(n, run[i]);
      InvCalls(n, run[i]);
      InvLive(n, run[i]);
    }
  }
}
