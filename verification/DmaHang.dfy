/**
 The other side of the shutdown: a stop that is seen with fewer transfers left than there are
 receive buffers raises the target while the receive thread may already have let buffers go, and
 then the program can hang.
 */
module DmaHang {
  import opened DmaShutdown

  /** If the run has a stop acted on, it is at the transmit counter `c`. */
  ghost predicate SeenAt(run: seq<State>, c: nat) {
    forall i :: 0 <= i < |run| ==> run[i].tpc == TxSetTarget ==> run[i].counter == c
  }

  /** The receive thread waits for a buffer that nobody will fill. */
  ghost predicate Hung(n: nat, s: State) {
    && Shaped(n, s) && n > 0
    && s.rpc == RxFinish && s.slots[s.rxBuffer] == Idle && s.rxBuffer !in s.queue
  }

  lemma HungForever(n: nat, s: State, t: State)
    requires Hung(n, s) && Next(n, s, t)
    ensures Hung(n, t)
  {
    if CanDeliver(s) && t == Deliver(n, s) {
      assert s.queue[0] in s.queue;
    }
  }

  ghost predicate Ends(n: nat, c: nat, run: seq<State>, s: State, t: State) {
    Run(n, run) && SeenAt(run, c) && run[0] == s && run[|run| - 1] == t
  }

  ghost predicate Reaches(n: nat, c: nat, s: State, t: State) {
    exists run :: Ends(n, c, run, s, t)
  }

  lemma ReachesSelf(n: nat, c: nat, s: State)
    requires s.tpc != TxSetTarget
    ensures Reaches(n, c, s, s)
  {
    assert Ends(n, c, [s], s, s);
  }

  /** One more step, which keeps the invariant of the graceful runs as long as no stop is acted on. */
  lemma Also(n: nat, c: nat, s: State, t: State, u: State)
    requires Reaches(n, c, s, t) && Next(n, t, u) && (u.tpc == TxSetTarget ==> u.counter == c)
    ensures Reaches(n, c, s, u)
    ensures Inv(n, t) && t.tpc != TxSetTarget ==> Inv(n, u)
  {
    var run :| Ends(n, c, run, s, t);
    var more := run + [u];
    assert Run(n, more) by {
      forall i | 0 <= i < |more| - 1 ensures Next(n, more[i], more[i + 1]) {
        if i < |run| - 1 {
          assert Next(n, run[i], run[i + 1]);
        }
      }
    }
    assert Ends(n, c, more, s, u);
    if Inv(n, t) && t.tpc != TxSetTarget {
      NextKeeps(n, t, u);
    }
  }

  /** The receive thread finishes one filled buffer, posts it again or not, and waits for the next. */
  lemma RxRound(n: nat, c: nat, o: State, s: State) returns (t: State)
    requires Reaches(n, c, o, s) && n > 0 && Shaped(n, s) && s.tpc != TxSetTarget
    requires s.rpc == RxFinish && s.slots[s.rxBuffer].Filled? && s.rxCounter + 1 < s.target
    ensures Reaches(n, c, o, t) && (Inv(n, s) ==> Inv(n, t)) && Shaped(n, t)
    ensures t.rpc == RxFinish && t.rxCounter == s.rxCounter + 1 && t.rxBuffer == (s.rxBuffer + 1) % n
    ensures t.target == s.target && t.stop == s.stop && t.stopInProgress == s.stopInProgress
    ensures t.tpc == s.tpc && t.counter == s.counter && t.txInProgress == s.txInProgress
    ensures t.sent == s.sent && t.delivered == s.delivered
    ensures || (t.slots == s.slots[s.rxBuffer := Idle] && t.queue == s.queue)
            || (t.slots == s.slots[s.rxBuffer := Posted] && t.queue == s.queue + [s.rxBuffer])
  {
    hide Inv, Reaches;
    var s1 := RxStep(n, s);
    Also(n, c, o, s, s1);
    var s2 := RxStep(n, s1);
    Also(n, c, o, s1, s2);
    t := RxStep(n, s2);
    Also(n, c, o, s2, t);
    if t.rpc == RxRestart {
      var s3 := t;
      t := RxStep(n, s3);
      Also(n, c, o, s3, t);
    }
  }

  /** The transmit thread finishes its delivered transfer and is about to look for a stop. */
  lemma TxHalfRound(n: nat, c: nat, o: State, s: State) returns (t: State)
    requires Reaches(n, c, o, s) && n > 0 && Shaped(n, s)
    requires s.tpc == TxFinish && s.counter < s.sent == s.delivered && s.txInProgress == 1
    requires s.counter + 1 < s.target
    ensures Reaches(n, c, o, t) && (Inv(n, s) ==> Inv(n, t))
    ensures t == s.(tpc := TxCheckStop, counter := s.counter + 1, txInProgress := 0)
  {
    var s1 := TxStep(n, s);
    Also(n, c, o, s, s1);
    t := TxStep(n, s1);
    Also(n, c, o, s1, t);
  }

  /** A stop already acted on is not acted on again. */
  lemma TxPassesBy(n: nat, c: nat, o: State, s: State) returns (t: State)
    requires Reaches(n, c, o, s) && n > 0 && Shaped(n, s)
    requires s.tpc == TxCheckStop && (!s.stop || s.stopInProgress)
    ensures Reaches(n, c, o, t) && (Inv(n, s) ==> Inv(n, t))
    ensures t == s.(tpc := TxMore)
  {
    t := TxStep(n, s);
    Also(n, c, o, s, t);
  }

  /** It then starts the next transfer. */
  lemma TxGoesOn(n: nat, c: nat, o: State, s: State) returns (t: State)
    requires Reaches(n, c, o, s) && n > 0 && Shaped(n, s)
    requires s.tpc == TxMore && s.txInProgress == 0 && s.counter < s.target
    ensures Reaches(n, c, o, t) && (Inv(n, s) ==> Inv(n, t))
    ensures t == s.(tpc := TxFinish, txWord := s.counter, sent := s.sent + 1, txInProgress := 1)
  {
    var s1 := TxStep(n, s);
    Also(n, c, o, s, s1);
    t := TxStep(n, s1);
    Also(n, c, o, s1, t);
  }

  lemma DeliverNext(n: nat, c: nat, o: State, s: State) returns (t: State)
    requires Reaches(n, c, o, s) && n > 0 && Shaped(n, s) && CanDeliver(s) && s.tpc != TxSetTarget
    ensures Reaches(n, c, o, t) && (Inv(n, s) ==> Inv(n, t))
    ensures t == Deliver(n, s) && Shaped(n, t)
  {
    t := Deliver(n, s);
    Also(n, c, o, s, t);
  }

  // ---- Up to the stop ----

  /** Both threads wait for transfer `k`, and no stop has come. */
  ghost predicate Waiting(n: nat, transfers: int, k: nat, s: State) {
    && Inv(n, s) && s.target == transfers && !s.stop && !s.stopInProgress
    && s.tpc == TxFinish && s.rpc == RxFinish
    && s.counter == s.rxCounter == s.delivered == k < transfers
  }

  /** The receive thread posts its buffers first. */
  lemma {:induction false} PostAll(n: nat, c: nat, o: State, s: State) returns (t: State)
    requires Reaches(n, c, o, s) && Inv(n, s) && s.tpc == TxPost && !s.stop && !s.stopInProgress
    requires s.rpc == RxPost || s.rpc == RxPostCheck
    ensures Reaches(n, c, o, t) && Inv(n, t) && t.tpc == TxPost && !t.stop && !t.stopInProgress
    ensures t.target == s.target && t.rpc == RxFinish && t.rxCounter == 0
    decreases Left(n, s)
  {
    InvShaped(n, s);
    t := RxStep(n, s);
    Also(n, c, o, s, t);
    NextWorks(n, s, t);
    if t.rpc == RxFinish {
    } else {
      t := PostAll(n, c, o, t);
    }
  }

  lemma FirstWait(n: nat, transfers: int, c: nat) returns (t: State)
    requires n > 0 && transfers > 0
    ensures Reaches(n, c, Init(n, transfers), t) && Waiting(n, transfers, 0, t)
  {
    var o := Init(n, transfers);
    ReachesSelf(n, c, o);
    InitInv(n, transfers);
    var s := PostAll(n, c, o, o);
    InvShaped(n, s);
    t := TxStep(n, s);
    Also(n, c, o, s, t);
  }

  /** Transfer `k` goes through; the transmit thread is about to look for a stop. */
  lemma HalfRound(n: nat, transfers: int, c: nat, k: nat, o: State, s: State) returns (t: State)
    requires Reaches(n, c, o, s) && Waiting(n, transfers, k, s) && k + 1 < transfers
    ensures Reaches(n, c, o, t) && Inv(n, t) && t.target == transfers && !t.stop && !t.stopInProgress
    ensures t.tpc == TxCheckStop && t.rpc == RxFinish && t.counter == t.rxCounter == t.delivered == k + 1
  {
    InvShaped(n, s);
    assert SlotInv(n, s, k);
    assert s.queue[0] == SlotOf(n, s.delivered + 0);
    var s1 := DeliverNext(n, c, o, s);
    assert s1.slots[s1.rxBuffer].Filled?;
    var s2 := RxRound(n, c, o, s1);
    t := TxHalfRound(n, c, o, s2);
  }

  lemma {:induction false} WaitFor(n: nat, transfers: int, c: nat, k: nat) returns (t: State)
    requires n > 0 && k < transfers
    ensures Reaches(n, c, Init(n, transfers), t) && Waiting(n, transfers, k, t)
  {
    if k == 0 {
      t := FirstWait(n, transfers, c);
    } else {
      var o := Init(n, transfers);
      var s := WaitFor(n, transfers, c, k - 1);
      var s1 := HalfRound(n, transfers, c, k - 1, o, s);
      InvShaped(n, s1);
      var s2 := TxPassesBy(n, c, o, s1);
      t := TxGoesOn(n, c, o, s2);
    }
  }

  // ---- From the stop to the hang ----

  /** The receive thread has let the slot of transfer `transfers` go, and is on its way to it. */
  ghost predicate Doomed(n: nat, transfers: nat, k: nat, s: State) {
    && n > 0 && Shaped(n, s) && k <= transfers < k + n && transfers < s.target && s.stopInProgress
    && s.tpc == TxFinish && s.rpc == RxFinish && s.rxBuffer == SlotOf(n, k)
    && s.counter == s.rxCounter == s.delivered == k && s.sent == k + 1 && s.txInProgress == 1
    && s.slots[SlotOf(n, transfers)] == Idle && SlotOf(n, transfers) !in s.queue
    && |s.queue| >= transfers - k
    && forall i :: 0 <= i < transfers - k ==> s.queue[i] == SlotOf(n, k + i)
  }

  /** A stop seen at `c` with fewer than `n` transfers left. */
  lemma LateStop(n: nat, transfers: int, c: nat) returns (t: State)
    requires n > 0 && 1 <= c < transfers < c + n
    ensures Reaches(n, c, Init(n, transfers), t) && Doomed(n, transfers, c, t)
  {
    var o := Init(n, transfers);
    var s := WaitFor(n, transfers, c, c - 1);
    var s1 := HalfRound(n, transfers, c, c - 1, o, s);
    var s2 := s1.(stop := true);
    Also(n, c, o, s1, s2);
    InvShaped(n, s2);
    var s3 := TxStep(n, s2);
    Also(n, c, o, s2, s3);
    assert Inv(n, s3) && s3.tpc == TxSetTarget;
    InvShaped(n, s3);
    var s4 := TxStep(n, s3);
    Also(n, c, o, s3, s4);
    t := TxGoesOn(n, c, o, s4);
    LetGo(n, transfers, c, s3);
  }

  lemma LetGo(n: nat, transfers: int, c: nat, s: State)
    requires Inv(n, s) && c < transfers < c + n && s.target == transfers
    requires s.rpc == RxFinish && s.rxCounter == s.delivered == c
    ensures s.slots[SlotOf(n, transfers)] == Idle && SlotOf(n, transfers) !in s.queue
    ensures |s.queue| == transfers - c
    ensures forall i :: 0 <= i < transfers - c ==> s.queue[i] == SlotOf(n, c + i)
  {
    assert SlotInv(n, s, transfers);
    forall i | 0 <= i < |s.queue| ensures s.queue[i] != SlotOf(n, transfers) {
      SlotsApart(n, c + i, transfers);
    }
  }

  /** What one round does to the receive buffers of a doomed program. */
  lemma DoomedBuffers(n: nat, transfers: nat, k: nat, s: State, slots: seq<Slot>, queue: seq<nat>)
    requires Doomed(n, transfers, k, s) && k < transfers
    requires var b := s.rxBuffer;
             || (slots == Deliver(n, s).slots[b := Idle] && queue == s.queue[1..])
             || (slots == Deliver(n, s).slots[b := Posted] && queue == s.queue[1..] + [b])
    ensures slots[SlotOf(n, transfers)] == Idle && SlotOf(n, transfers) !in queue
    ensures |queue| >= transfers - (k + 1)
    ensures forall i :: 0 <= i < transfers - (k + 1) ==> queue[i] == SlotOf(n, k + 1 + i)
  {
    SlotsApart(n, k, transfers);
    assert s.queue[0] == SlotOf(n, k + 0);
    forall i | 0 <= i < transfers - (k + 1) ensures queue[i] == SlotOf(n, k + 1 + i) {
      assert queue[i] == s.queue[i + 1];
    }
  }

  /** The same with transfer `k - 1` received, but not yet finished by the transmit thread. */
  ghost predicate HalfDoomed(n: nat, transfers: nat, k: nat, s: State) {
    && s.tpc == TxFinish && s.counter + 1 == k && s.sent == s.delivered == k && s.txInProgress == 1
    && s.stopInProgress && transfers < s.target
    && Doomed(n, transfers, k, s.(counter := k, sent := k + 1))
  }

  lemma DoomedReceives(n: nat, transfers: nat, c: nat, k: nat, o: State, s: State) returns (t: State)
    requires Reaches(n, c, o, s) && Doomed(n, transfers, k, s) && k < transfers
    ensures Reaches(n, c, o, t) && HalfDoomed(n, transfers, k + 1, t)
  {
    SlotWraps(n, k);
    assert s.queue[0] == SlotOf(n, k + 0);
    var s1 := DeliverNext(n, c, o, s);
    hide Reaches, Inv, SlotOf;
    t := RxRound(n, c, o, s1);
    DoomedBuffers(n, transfers, k, s, t.slots, t.queue);
  }

  lemma DoomedRound(n: nat, transfers: nat, c: nat, k: nat, o: State, s: State) returns (t: State)
    requires Reaches(n, c, o, s) && Doomed(n, transfers, k, s) && k < transfers
    ensures Reaches(n, c, o, t) && Doomed(n, transfers, k + 1, t)
  {
    var s2 := DoomedReceives(n, transfers, c, k, o, s);
    hide Reaches, Inv, SlotOf;
    var s3 := TxHalfRound(n, c, o, s2);
    var s4 := TxPassesBy(n, c, o, s3);
    t := TxGoesOn(n, c, o, s4);
  }

  lemma {:induction false} DoomedHangs(n: nat, transfers: nat, c: nat, k: nat, o: State, s: State) returns (t: State)
    requires Reaches(n, c, o, s) && Doomed(n, transfers, k, s)
    ensures Reaches(n, c, o, t) && Hung(n, t)
    decreases transfers - k
  {
    t := s;
    if k >= transfers {
    } else {
      t := DoomedRound(n, transfers, c, k, o, s);
      t := DoomedHangs(n, transfers, c, k + 1, o, t);
    }
  }

  // ---- Exactly when a stop is safe ----

  lemma SeenStep(n: nat, transfers: int, c: nat, s: State, t: State)
    requires Inv(n, s) && Next(n, s, t) && c + n <= transfers
    requires !s.stopInProgress ==> s.target == transfers
    requires s.tpc == TxSetTarget ==> s.counter == c
    ensures InTime(n, s) && Inv(n, t) && (!t.stopInProgress ==> t.target == transfers)
  {
    TargetStep(n, s, t);
    NextKeeps(n, s, t);
    hide Next, Ring, RxInv;
  }

  lemma {:induction false} SeenInTime(n: nat, transfers: int, c: nat, run: seq<State>, i: nat)
    requires n > 0 && Run(n, run) && run[0] == Init(n, transfers) && SeenAt(run, c) && c + n <= transfers
    requires i < |run|
    ensures Inv(n, run[i]) && (!run[i].stopInProgress ==> run[i].target == transfers)
  {
    if i == 0 {
      InitInv(n, transfers);
    } else {
      SeenInTime(n, transfers, c, run, i - 1);
      hide Next, Inv, InTime, Init;
      assert Next(n, run[i - 1], run[i]);
      SeenStep(n, transfers, c, run[i - 1], run[i]);
    }
  }

  /** A stop acted on after `c` transfers can never leave the program hanging exactly when at least
      `n` transfers remain then. */
  lemma StopIsSafeExactly(n: nat, transfers: int, c: nat)
    requires n > 0 && 1 <= c < transfers
    ensures (forall t :: Reaches(n, c, Init(n, transfers), t) ==> !Hung(n, t)) <==> c + n <= transfers
  {
    if c + n <= transfers {
      forall t | Reaches(n, c, Init(n, transfers), t) ensures !Hung(n, t) {
        var run :| Ends(n, c, run, Init(n, transfers), t);
        SeenInTime(n, transfers, c, run, |run| - 1);
        InvShaped(n, t);
        InvCalls(n, t);
      }
    } else {
      var s := LateStop(n, transfers, c);
      var t := DoomedHangs(n, transfers, c, c, Init(n, transfers), s);
    }
  }
}
