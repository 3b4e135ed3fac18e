/**
 Who owns a pooled packet (vpn/vpn.go, service/tunnel.go): the pool, a slot of the TUN read array, a
 channel, a stream handler, the copy being broadcast, or the live part of a handler's batch.  Every
 atomic step of every goroutine may come between any two others.
 */
module Ownership {
  import opened Wrappers

  /** Packet objects are numbered as they are made. */
  type Packet = nat

  datatype Chan = Chan(queue: seq<Packet>, closed: bool)

  /**
   What a handler does with its batch: fill it, filter it in place, use it, give it back.  The live
   cells are those below `kept` and those from `next` up to `n`; cells outside may still hold
   pointers to packets that were moved or given back.
   */
  datatype Phase =
    | Filling(n: nat)
    | Filtering(n: nat, next: nat, kept: nat)
    | Using(n: nat)
    | Clearing(n: nat, next: nat)

  datatype Worker = Worker(chan: nat, buf: seq<Option<Packet>>, phase: Phase)

  /**
   `slots` hold one packet at a time: first those of the TUN read array, then the packet each stream
   handler is reading into, then the copy being broadcast.
   */
  datatype State = State(
    made: nat,
    pool: multiset<Packet>,
    slots: seq<Option<Packet>>,
    chans: seq<Chan>,
    workers: seq<Worker>)

  // ---- Counting --------------------------------------------------------------------------------------

  function One(o: Option<Packet>, p: Packet): nat { if o == Some(p) then 1 else 0 }

  /** How often `p` is in these cells. */
  function Held(cells: seq<Option<Packet>>, p: Packet): nat {
    if cells == [] then 0 else One(cells[0], p) + Held(cells[1..], p)
  }

  predicate Fits(w: Worker) {
    && w.phase.n <= |w.buf|
    && (w.phase.Filtering? ==> w.phase.kept <= w.phase.next <= w.phase.n)
    && (w.phase.Clearing? ==> w.phase.next <= w.phase.n)
  }

  /** How often `p` is in the live part of a batch. */
  function Live(w: Worker, p: Packet): nat
    requires Fits(w)
  {
    match w.phase
    case Filling(n) => Held(w.buf[..n], p)
    case Filtering(n, next, kept) => Held(w.buf[..kept], p) + Held(w.buf[next..n], p)
    case Using(n) => Held(w.buf[..n], p)
    case Clearing(n, next) => Held(w.buf[next..n], p)
  }

  function InChans(chans: seq<Chan>, p: Packet): nat {
    if chans == [] then 0 else multiset(chans[0].queue)[p] + InChans(chans[1..], p)
  }

  function InWorkers(workers: seq<Worker>, p: Packet): nat
    requires forall i :: 0 <= i < |workers| ==> Fits(workers[i])
  {
    if workers == [] then 0 else Live(workers[0], p) + InWorkers(workers[1..], p)
  }

  predicate WellFormed(s: State) {
    forall i :: 0 <= i < |s.workers| ==> Fits(s.workers[i]) && s.workers[i].chan < |s.chans|
  }

  /** How many owners `p` has. */
  function Owners(s: State, p: Packet): nat
    requires WellFormed(s)
  {
    s.pool[p] + Held(s.slots, p) + InChans(s.chans, p) + InWorkers(s.workers, p)
  }

  // ---- Steps -----------------------------------------------------------------------------------------

  /** Steps of a handler on its own batch. */
  datatype BatchStep = StartFilter | Keep | Reject | Use | StartClear | Clear | Restart

  datatype Step =
    | Take(i: nat, p: Packet)
    | GiveBack(i: nat)
    | Send(i: nat, c: nat)
    | Fill(w: nat)
    | Batch(w: nat, b: BatchStep)
    | Close(c: nat)
    | Drain(c: nat)
    | Collect(p: Packet)

  predicate BatchEnabled(k: Worker, b: BatchStep)
    requires Fits(k)
  {
    var f := k.phase;
    match b
    case StartFilter => f.Filling?
    case Keep => f.Filtering? && f.next < f.n
    case Reject => f.Filtering? && f.next < f.n
    case Use => f.Filling? || (f.Filtering? && f.next == f.n)
    case StartClear => f.Using?
    case Clear => f.Clearing? && f.next < f.n
    case Restart => f.Clearing? && f.next == f.n
  }

  /** The packet a batch step returns to the pool. */
  function Returned(k: Worker, b: BatchStep): Option<Packet>
    requires Fits(k) && BatchEnabled(k, b)
  {
    if b.Reject? || b.Clear? then k.buf[k.phase.next] else None
  }

  /** Keeping a packet moves it down; its old cell keeps a dead pointer. */
  function AfterBatch(k: Worker, b: BatchStep): Worker
    requires Fits(k) && BatchEnabled(k, b)
  {
    var f := k.phase;
    match b
    case StartFilter => k.(phase := Filtering(f.n, 0, 0))
    case Keep => k.(buf := k.buf[f.kept := k.buf[f.next]], phase := Filtering(f.n, f.next + 1, f.kept + 1))
    case Reject => k.(buf := k.buf[f.next := None], phase := Filtering(f.n, f.next + 1, f.kept))
    case Use => k.(phase := Using(if f.Filling? then f.n else f.kept))
    case StartClear => k.(phase := Clearing(f.n, 0))
    case Clear => k.(buf := k.buf[f.next := None], phase := Clearing(f.n, f.next + 1))
    case Restart => k.(phase := Filling(0))
  }

  predicate Enabled(s: State, step: Step)
    requires WellFormed(s)
  {
    match step
    case Take(i, p) => i < |s.slots| && s.slots[i].None? && (p in s.pool || p == s.made)
    case GiveBack(i) => i < |s.slots| && s.slots[i].Some?
    case Send(i, c) => i < |s.slots| && s.slots[i].Some? && c < |s.chans| && !s.chans[c].closed
    case Fill(w) =>
      && w < |s.workers| && s.workers[w].phase.Filling? && s.workers[w].phase.n < |s.workers[w].buf|
      && s.chans[s.workers[w].chan].queue != []
    case Batch(w, b) => w < |s.workers| && BatchEnabled(s.workers[w], b)
    case Close(c) => c < |s.chans| && !s.chans[c].closed
    case Drain(c) => c < |s.chans| && s.chans[c].closed && s.chans[c].queue != []
    case Collect(p) => p in s.pool
  }

  /** A packet from the pool, or a new one. */
  function FromPool(s: State, p: Packet): State {
    if p in s.pool then s.(pool := s.pool - multiset{p}) else s.(made := s.made + 1)
  }

  function ToPool(s: State, o: Option<Packet>): State {
    if o.Some? then s.(pool := s.pool + multiset{o.value}) else s
  }

  function SetSlot(s: State, i: nat, o: Option<Packet>): State
    requires i < |s.slots|
  {
    s.(slots := s.slots[i := o])
  }

  function SetChan(s: State, c: nat, chan: Chan): State
    requires c < |s.chans|
  {
    s.(chans := s.chans[c := chan])
  }

  function SetWorker(s: State, w: nat, k: Worker): State
    requires w < |s.workers|
  {
    s.(workers := s.workers[w := k])
  }

  function Apply(s: State, step: Step): State
    requires WellFormed(s) && Enabled(s, step)
  {
    match step
    case Take(i, p) => SetSlot(FromPool(s, p), i, Some(p))
    case GiveBack(i) => SetSlot(ToPool(s, s.slots[i]), i, None)
    case Send(i, c) => SetSlot(SetChan(s, c, s.chans[c].(queue := s.chans[c].queue + [s.slots[i].value])), i, None)
    case Fill(w) =>
      var k := s.workers[w];
      var queue := s.chans[k.chan].queue;
      SetWorker(SetChan(s, k.chan, s.chans[k.chan].(queue := queue[1..])), w, Filled(k, queue[0]))
    case Batch(w, b) =>
      var k := s.workers[w];
      SetWorker(ToPool(s, Returned(k, b)), w, AfterBatch(k, b))
    case Close(c) => SetChan(s, c, s.chans[c].(closed := true))
    case Drain(c) =>
      var queue := s.chans[c].queue;
      SetChan(ToPool(s, Some(queue[0])), c, s.chans[c].(queue := queue[1..]))
    case Collect(p) => s.(pool := s.pool - multiset{p})
  }

  function Filled(k: Worker, p: Packet): Worker
    requires Fits(k) && k.phase.Filling? && k.phase.n < |k.buf|
  {
    k.(buf := k.buf[k.phase.n := Some(p)], phase := Filling(k.phase.n + 1))
  }

  // ---- Conservation ----------------------------------------------------------------------------------

  lemma {:induction false} HeldConcat(a: seq<Option<Packet>>, b: seq<Option<Packet>>, p: Packet)
    ensures Held(a + b, p) == Held(a, p) + Held(b, p)
  {
    if a == [] {
      assert a + b == b;
    } else {
      assert (a + b)[1..] == a[1..] + b;
      HeldConcat(a[1..], b, p);
    }
  }

  lemma HeldUpdate(cells: seq<Option<Packet>>, i: nat, o: Option<Packet>, p: Packet)
    requires i < |cells|
    ensures Held(cells[i := o], p) + One(cells[i], p) == Held(cells, p) + One(o, p)
  {
    HeldSplit(cells, i, p);
    HeldSplit(cells[i := o], i, p);
    assert cells[i := o][..i] == cells[..i] && cells[i := o][i + 1..] == cells[i + 1..];
  }

  /** One cell, taken out. */
  lemma HeldSplit(cells: seq<Option<Packet>>, i: nat, p: Packet)
    requires i < |cells|
    ensures Held(cells, p) == Held(cells[..i], p) + One(cells[i], p) + Held(cells[i + 1..], p)
  {
    assert cells == cells[..i] + cells[i..] && cells[i..][1..] == cells[i + 1..];
    HeldConcat(cells[..i], cells[i..], p);
  }

  lemma {:induction false} ChansUpdate(chans: seq<Chan>, c: nat, chan: Chan, p: Packet)
    requires c < |chans|
    ensures InChans(chans[c := chan], p) + multiset(chans[c].queue)[p] == InChans(chans, p) + multiset(chan.queue)[p]
  {
    if c > 0 {
      ChansUpdate(chans[1..], c - 1, chan, p);
      assert chans[c := chan][1..] == chans[1..][c - 1 := chan];
    } else {
      assert chans[c := chan][1..] == chans[1..];
    }
  }

  lemma {:induction false} WorkersUpdate(workers: seq<Worker>, w: nat, worker: Worker, p: Packet)
    requires w < |workers| && Fits(worker) && forall i :: 0 <= i < |workers| ==> Fits(workers[i])
    ensures InWorkers(workers[w := worker], p) + Live(workers[w], p) == InWorkers(workers, p) + Live(worker, p)
  {
    if w > 0 {
      WorkersUpdate(workers[1..], w - 1, worker, p);
      assert workers[w := worker][1..] == workers[1..][w - 1 := worker];
    } else {
      assert workers[w := worker][1..] == workers[1..];
    }
  }

  lemma SetSlotCount(s: State, i: nat, o: Option<Packet>, p: Packet)
    requires WellFormed(s) && i < |s.slots|
    ensures WellFormed(SetSlot(s, i, o))
    ensures Owners(SetSlot(s, i, o), p) == Owners(s, p) - One(s.slots[i], p) + One(o, p)
  {
    HeldUpdate(s.slots, i, o, p);
  }

  lemma SetChanCount(s: State, c: nat, chan: Chan, p: Packet)
    requires WellFormed(s) && c < |s.chans|
    ensures WellFormed(SetChan(s, c, chan))
    ensures Owners(SetChan(s, c, chan), p) == Owners(s, p) - multiset(s.chans[c].queue)[p] + multiset(chan.queue)[p]
  {
    ChansUpdate(s.chans, c, chan, p);
  }

  lemma SetWorkerCount(s: State, w: nat, k: Worker, p: Packet)
    requires WellFormed(s) && w < |s.workers| && Fits(k) && k.chan < |s.chans|
    ensures WellFormed(SetWorker(s, w, k))
    ensures Owners(SetWorker(s, w, k), p) == Owners(s, p) - Live(s.workers[w], p) + Live(k, p)
  {
    WorkersUpdate(s.workers, w, k, p);
  }

  lemma KeepConserves(k: Worker, p: Packet)
    requires Fits(k) && BatchEnabled(k, Keep)
    ensures Live(AfterBatch(k, Keep), p) == Live(k, p)
  {
    var n, next, kept := k.phase.n, k.phase.next, k.phase.kept;
    var buf := AfterBatch(k, Keep).buf;
    HeldSplit(k.buf[next..n], 0, p);
    assert k.buf[next..n][1..] == k.buf[next + 1..n] == buf[next + 1..n];
    assert buf[..kept + 1] == k.buf[..kept] + [k.buf[next]];
    HeldConcat(k.buf[..kept], [k.buf[next]], p);
    assert Held([k.buf[next]], p) == One(k.buf[next], p);
  }

  lemma ReturnConserves(k: Worker, b: BatchStep, p: Packet)
    requires Fits(k) && BatchEnabled(k, b) && (b.Reject? || b.Clear?)
    ensures Live(AfterBatch(k, b), p) + One(Returned(k, b), p) == Live(k, p)
  {
  }

  /** A batch step moves live packets, or returns one of them, and leaves all others live. */
  lemma BatchConserves(k: Worker, b: BatchStep, p: Packet)
    requires Fits(k) && BatchEnabled(k, b)
    ensures Fits(AfterBatch(k, b)) && Live(AfterBatch(k, b), p) + One(Returned(k, b), p) == Live(k, p)
  {
    match b
    case Keep => KeepConserves(k, p);
    case Reject => ReturnConserves(k, b, p);
    case Clear => ReturnConserves(k, b, p);
    case StartFilter =>
      assert k.buf[0..k.phase.n] == k.buf[..k.phase.n];
    case StartClear =>
      assert k.buf[0..k.phase.n] == k.buf[..k.phase.n];
    case _ =>
  }

  predicate LiveCell(k: Worker, i: nat) {
    match k.phase
    case Filling(n) => i < n
    case Filtering(n, next, kept) => i < kept || next <= i < n
    case Using(n) => i < n
    case Clearing(n, next) => next <= i < n
  }

  /** The same batch up to pointers outside its live part. */
  predicate SameLive(k: Worker, m: Worker) {
    && k.phase == m.phase && k.chan == m.chan && |k.buf| == |m.buf|
    && forall i: nat :: i < |k.buf| && LiveCell(k, i) ==> k.buf[i] == m.buf[i]
  }

  /** Dead pointers are never read: whatever they are, the batch goes the same way. */
  lemma DeadPointersNeverRead(k: Worker, m: Worker, b: BatchStep)
    requires Fits(k) && SameLive(k, m) && BatchEnabled(k, b)
    ensures BatchEnabled(m, b) && Returned(k, b) == Returned(m, b) && SameLive(AfterBatch(k, b), AfterBatch(m, b))
  {
  }

  lemma FillConserves(k: Worker, x: Packet, p: Packet)
    requires Fits(k) && k.phase.Filling? && k.phase.n < |k.buf|
    ensures Fits(Filled(k, x)) && Live(Filled(k, x), p) == Live(k, p) + One(Some(x), p)
  {
    var n := k.phase.n;
    assert Filled(k, x).buf[..n + 1] == k.buf[..n] + [Some(x)];
    HeldConcat(k.buf[..n], [Some(x)], p);
    assert Held([Some(x)], p) == One(Some(x), p);
  }

  lemma Dequeue(queue: seq<Packet>, p: Packet)
    requires queue != []
    ensures multiset(queue)[p] == multiset(queue[1..])[p] + One(Some(queue[0]), p)
  {
    assert queue == [queue[0]] + queue[1..];
  }

  /** How many owners a packet has after a step: only a new packet gains one, only a collected one loses one. */
  function OwnersAfter(s: State, step: Step, p: Packet): int
    requires WellFormed(s) && Enabled(s, step)
  {
    match step
    case Take(_, x) => Owners(s, p) + if x == p && x !in s.pool then 1 else 0
    case Collect(x) => Owners(s, p) - if x == p then 1 else 0
    case _ => Owners(s, p)
  }

  lemma SlotStepConserves(s: State, step: Step, p: Packet)
    requires WellFormed(s) && Enabled(s, step) && (step.Take? || step.GiveBack? || step.Send?)
    ensures WellFormed(Apply(s, step)) && Owners(Apply(s, step), p) == OwnersAfter(s, step, p)
  {
    match step
    case Take(i, x) => SetSlotCount(FromPool(s, x), i, Some(x), p);
    case GiveBack(i) => SetSlotCount(ToPool(s, s.slots[i]), i, None, p);
    case Send(i, c) =>
      var chan := s.chans[c].(queue := s.chans[c].queue + [s.slots[i].value]);
      SetChanCount(s, c, chan, p);
      SetSlotCount(SetChan(s, c, chan), i, None, p);
  }

  lemma ChanStepConserves(s: State, step: Step, p: Packet)
    requires WellFormed(s) && Enabled(s, step) && (step.Close? || step.Drain? || step.Collect?)
    ensures WellFormed(Apply(s, step)) && Owners(Apply(s, step), p) == OwnersAfter(s, step, p)
  {
    match step
    case Close(c) => SetChanCount(s, c, s.chans[c].(closed := true), p);
    case Drain(c) =>
      var queue := s.chans[c].queue;
      Dequeue(queue, p);
      SetChanCount(ToPool(s, Some(queue[0])), c, s.chans[c].(queue := queue[1..]), p);
    case Collect(_) =>
  }

  lemma FillStepConserves(s: State, w: nat, p: Packet)
    requires WellFormed(s) && Enabled(s, Fill(w))
    ensures WellFormed(Apply(s, Fill(w))) && Owners(Apply(s, Fill(w)), p) == OwnersAfter(s, Fill(w), p)
  {
    var k := s.workers[w];
    var queue := s.chans[k.chan].queue;
    var chan := s.chans[k.chan].(queue := queue[1..]);
    Dequeue(queue, p);
    SetChanCount(s, k.chan, chan, p);
    FillConserves(k, queue[0], p);
    SetWorkerCount(SetChan(s, k.chan, chan), w, Filled(k, queue[0]), p);
  }

  lemma WorkerStepConserves(s: State, step: Step, p: Packet)
    requires WellFormed(s) && Enabled(s, step) && (step.Fill? || step.Batch?)
    ensures WellFormed(Apply(s, step)) && Owners(Apply(s, step), p) == OwnersAfter(s, step, p)
  {
    var k := s.workers[step.w];
    match step
    case Fill(w) =>
      FillStepConserves(s, w, p);
    case Batch(w, b) =>
      BatchConserves(k, b, p);
      SetWorkerCount(ToPool(s, Returned(k, b)), w, AfterBatch(k, b), p);
  }

  /** Every step conserves packets: nobody's gain is more than somebody's loss. */
  lemma StepConserves(s: State, step: Step, p: Packet)
    requires WellFormed(s) && Enabled(s, step)
    ensures WellFormed(Apply(s, step)) && Owners(Apply(s, step), p) == OwnersAfter(s, step, p)
  {
    if step.Take? || step.GiveBack? || step.Send? {
      SlotStepConserves(s, step, p);
    } else if step.Fill? || step.Batch? {
      WorkerStepConserves(s, step, p);
    } else {
      ChanStepConserves(s, step, p);
    }
  }

  // ---- Affine ownership in every run -------------------------------------------------------------------

  /** Nobody shares a packet, and only packets that were made are owned. */
  ghost predicate Affine(s: State) {
    WellFormed(s) && forall p: Packet :: Single(s, p)
  }

  predicate Single(s: State, p: Packet)
    requires WellFormed(s)
  {
    Owners(s, p) <= 1 && (Owners(s, p) == 1 ==> p < s.made)
  }

  /** Before the first packet is made. */
  predicate Initial(s: State) {
    && s.made == 0 && s.pool == multiset{}
    && (forall i :: 0 <= i < |s.slots| ==> s.slots[i].None?)
    && (forall i :: 0 <= i < |s.chans| ==> s.chans[i].queue == [])
    && (forall i :: 0 <= i < |s.workers| ==> s.workers[i].phase == Filling(0) && s.workers[i].chan < |s.chans|)
  }

  predicate IsRun(t: seq<State>, steps: seq<Step>) {
    && |t| == |steps| + 1 && Initial(t[0])
    && forall i {:trigger steps[i]} :: 0 <= i < |steps| ==>
         WellFormed(t[i]) && Enabled(t[i], steps[i]) && t[i + 1] == Apply(t[i], steps[i])
  }

  lemma {:induction false} NoneHeld(cells: seq<Option<Packet>>, p: Packet)
    requires forall i :: 0 <= i < |cells| ==> cells[i].None?
    ensures Held(cells, p) == 0
  {
    if cells != [] { NoneHeld(cells[1..], p); }
  }

  lemma {:induction false} NoneQueued(chans: seq<Chan>, p: Packet)
    requires forall i :: 0 <= i < |chans| ==> chans[i].queue == []
    ensures InChans(chans, p) == 0
  {
    if chans != [] { NoneQueued(chans[1..], p); }
  }

  lemma {:induction false} NoneLive(workers: seq<Worker>, p: Packet)
    requires forall i :: 0 <= i < |workers| ==> workers[i].phase == Filling(0)
    ensures InWorkers(workers, p) == 0
  {
    if workers != [] { NoneLive(workers[1..], p); }
  }

  lemma StepKeepsSingle(s: State, step: Step, p: Packet)
    requires WellFormed(s) && Single(s, p) && Enabled(s, step)
    ensures WellFormed(Apply(s, step)) && Single(Apply(s, step), p)
  {
    StepConserves(s, step, p);
    assert Apply(s, step).made == s.made + if step.Take? && step.p !in s.pool then 1 else 0;
  }

  lemma StepKeepsAffine(s: State, step: Step)
    requires Affine(s) && Enabled(s, step)
    ensures Affine(Apply(s, step))
  {
    var t := Apply(s, step);
    forall p: Packet ensures WellFormed(t) && Single(t, p) { StepKeepsSingle(s, step, p); }
  }

  /** In every state of every run each packet has at most one owner. */
  lemma {:induction false} RunIsAffine(t: seq<State>, steps: seq<Step>, i: nat)
    requires IsRun(t, steps) && i < |t|
    ensures Affine(t[i])
  {
    if i == 0 {
      assert WellFormed(t[0]);
      forall p: Packet ensures Single(t[0], p) {
        NoneHeld(t[0].slots, p);
        NoneQueued(t[0].chans, p);
        NoneLive(t[0].workers, p);
      }
    } else {
      RunIsAffine(t, steps, i - 1);
      StepKeepsAffine(t[i - 1], steps[i - 1]);
    }
  }

  /** The packet a step gives back to the pool. */
  function GivenBack(s: State, step: Step): Option<Packet>
    requires WellFormed(s) && Enabled(s, step)
  {
    match step
    case GiveBack(i) => s.slots[i]
    case Batch(w, b) => Returned(s.workers[w], b)
    case Drain(c) => Some(s.chans[c].queue[0])
    case _ => None
  }

  lemma GivenBackIsOwned(s: State, step: Step, p: Packet)
    requires WellFormed(s) && Enabled(s, step) && GivenBack(s, step) == Some(p)
    ensures Apply(s, step).pool == s.pool + multiset{p} && Owners(s, p) >= s.pool[p] + 1
  {
    StepConserves(s, step, p);
    assert Owners(Apply(s, step), p) >= Apply(s, step).pool[p];
  }

  /** No packet is returned to the pool while it is there already. */
  lemma NeverReturnedTwice(t: seq<State>, steps: seq<Step>, i: nat)
    requires IsRun(t, steps) && i < |steps|
    ensures GivenBack(t[i], steps[i]).Some? ==> GivenBack(t[i], steps[i]).value !in t[i].pool
  {
    RunIsAffine(t, steps, i);
    var o := GivenBack(t[i], steps[i]);
    if o.Some? {
      assert Single(t[i], o.value);
      GivenBackIsOwned(t[i], steps[i], o.value);
    }
  }

  lemma {:induction false} LiveCounts(workers: seq<Worker>, w: nat, p: Packet)
    requires w < |workers| && forall i :: 0 <= i < |workers| ==> Fits(workers[i])
    ensures InWorkers(workers, p) >= Live(workers[w], p)
  {
    if w > 0 { LiveCounts(workers[1..], w - 1, p); }
  }

  /** Nobody uses a packet after returning it: what is live in a batch is not in the pool, nor live anywhere else. */
  lemma NeverUsedAfterReturn(t: seq<State>, steps: seq<Step>, i: nat, w: nat, p: Packet)
    requires IsRun(t, steps) && i < |t| && WellFormed(t[i]) && w < |t[i].workers| && Live(t[i].workers[w], p) > 0
    ensures p !in t[i].pool && Live(t[i].workers[w], p) == 1 && Some(p) !in t[i].slots
    ensures InChans(t[i].chans, p) == 0 && InWorkers(t[i].workers, p) == 1
  {
    RunIsAffine(t, steps, i);
    assert Single(t[i], p);
    LiveCounts(t[i].workers, w, p);
    if Some(p) in t[i].slots {
      var k :| 0 <= k < |t[i].slots| && t[i].slots[k] == Some(p);
      HeldSplit(t[i].slots, k, p);
    }
  }

  /** Two slots never hold the same packet; in particular a broadcast copy is not its original. */
  lemma SlotsNeverAlias(t: seq<State>, steps: seq<Step>, i: nat, a: nat, b: nat)
    requires IsRun(t, steps) && i < |t| && a < b < |t[i].slots| && t[i].slots[a].Some?
    ensures t[i].slots[a] != t[i].slots[b] && t[i].slots[a].value !in t[i].pool
  {
    RunIsAffine(t, steps, i);
    var slots := t[i].slots;
    var p := slots[a].value;
    assert Single(t[i], p);
    HeldSplit(slots, a, p);
    HeldSplit(slots[a + 1..], b - a - 1, p);
  }

  // ---- The batch loops ---------------------------------------------------------------------------------

  function Good(cells: seq<Packet>, bad: set<Packet>): seq<Packet> {
    if cells == [] then []
    else Good(cells[..|cells| - 1], bad) + if cells[|cells| - 1] in bad then [] else [cells[|cells| - 1]]
  }

  function Bad(cells: seq<Packet>, bad: set<Packet>): seq<Packet> {
    if cells == [] then []
    else Bad(cells[..|cells| - 1], bad) + if cells[|cells| - 1] in bad then [cells[|cells| - 1]] else []
  }

  lemma {:induction false} GoodAndBad(cells: seq<Packet>, bad: set<Packet>)
    ensures multiset(cells) == multiset(Good(cells, bad)) + multiset(Bad(cells, bad))
    ensures |Good(cells, bad)| + |Bad(cells, bad)| == |cells|
  {
    if cells != [] {
      var n := |cells| - 1;
      assert cells == cells[..n] + [cells[n]];
      GoodAndBad(cells[..n], bad);
    }
  }

  /** What is kept parses, what is given back does not. */
  lemma {:induction false} GoodIsKept(cells: seq<Packet>, bad: set<Packet>, x: Packet)
    ensures x in Good(cells, bad) <==> x in cells && x !in bad
    ensures x in Bad(cells, bad) <==> x in cells && x in bad
  {
    if cells != [] {
      var n := |cells| - 1;
      assert cells == cells[..n] + [cells[n]];
      GoodIsKept(cells[..n], bad, x);
    }
  }

  /** The batch as pointers; the cells up to `n` are all set. */
  ghost predicate Holds(buf: array<Option<Packet>>, n: nat, cells: seq<Packet>)
    reads buf
  {
    n <= buf.Length && |cells| == n && forall i :: 0 <= i < n ==> buf[i] == Some(cells[i])
  }

  /** Filtering a batch in place: what fails to parse is given back, the rest moves down in order. */
  method FilterBatch(buf: array<Option<Packet>>, n: nat, bad: set<Packet>, ghost cells: seq<Packet>)
      returns (kept: nat, returned: seq<Packet>)
    requires Holds(buf, n, cells)
    modifies buf
    ensures Holds(buf, kept, Good(cells, bad)) && returned == Bad(cells, bad)
  {
    kept, returned := 0, [];
    for i := 0 to n
      invariant kept <= i && Holds(buf, kept, Good(cells[..i], bad)) && returned == Bad(cells[..i], bad)
      invariant forall j :: i <= j < n ==> buf[j] == Some(cells[j])
    {
      assert cells[..i + 1][..i] == cells[..i];
      var packet := buf[i].value;
      if packet in bad {
        returned := returned + [packet];
        buf[i] := None;
      } else {
        buf[kept] := Some(packet);
        kept := kept + 1;
      }
    }
    assert cells[..n] == cells;
  }

  /** As many packets as are there without waiting, up to the size of the batch. */
  method ReadBatchFromChan(queue: seq<Packet>, buf: array<Option<Packet>>, offset: nat, ghost cells: seq<Packet>)
      returns (n: nat, rest: seq<Packet>)
    requires Holds(buf, offset, cells)
    modifies buf
    ensures offset <= n <= offset + |queue| && Holds(buf, n, cells + queue[..n - offset]) && rest == queue[n - offset..]
    ensures n == buf.Length || rest == []
  {
    n, rest := offset, queue;
    while n < buf.Length && rest != []
      invariant offset <= n <= buf.Length && n - offset <= |queue| && rest == queue[n - offset..]
      invariant Holds(buf, n, cells + queue[..n - offset])
    {
      buf[n] := Some(rest[0]);
      n, rest := n + 1, rest[1..];
    }
  }

  /** Giving a batch back: every packet once, and no pointer stays behind. */
  method ClearTempPackets(buf: array<Option<Packet>>, n: nat, ghost cells: seq<Packet>) returns (returned: seq<Packet>)
    requires Holds(buf, n, cells)
    modifies buf
    ensures returned == cells && forall i :: 0 <= i < n ==> buf[i] == None
  {
    returned := [];
    for i := 0 to n
      invariant returned == cells[..i] && (forall j :: 0 <= j < i ==> buf[j] == None)
      invariant forall j :: i <= j < n ==> buf[j] == Some(cells[j])
    {
      returned := returned + [buf[i].value];
      buf[i] := None;
    }
  }
}
