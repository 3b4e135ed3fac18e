/**
 Peer membership as a protocol (service/auth_status.go): any number of nodes exchange auth and status
 messages that may be lost, delayed, reordered or duplicated, while users add, accept, decline and
 remove peers and nodes restart.

 A pair (x, y) in a field of the state reads "at node x, about peer y".  Handlers and goroutines are
 tasks that advance one atomic access to shared state at a time, so every interleaving is a run.
 */
module Handshake {
  type Node = nat
  type Pair = (Node, Node)

  datatype Msg =
    | Auth(src: Node, dst: Node)
    | AuthReply(src: Node, dst: Node, confirmed: bool, declined: bool)
    | Status(src: Node, dst: Node, declined: bool)
    | StatusReply(src: Node, dst: Node, declined: bool)

  /** Work in progress at node `at` concerning `peer`. */
  datatype Task =
    // SendAuthRequest, before it records the request and sends it, then waiting for the answer
    | AuthStart(at: Node, peer: Node)
    | AuthWait(at: Node, peer: Node)
    // ExchangeNewStatusInfo, before it clears the ingoing request, then before it reads the block list, then waiting
    | ExchangeStart(at: Node, peer: Node)
    | ExchangeSend(at: Node, peer: Node)
    | ExchangeWait(at: Node, peer: Node, saidDeclined: bool)
    // StatusStreamHandler: KnownPeers read; block list read too, waiting for the info; the info still to be merged
    | StatusOpened(at: Node, peer: Node, known: bool)
    | StatusListening(at: Node, peer: Node, known: bool, blocked: bool)
    | Merge(at: Node, peer: Node, declined: bool)
    // AuthStreamHandler: block list read; then the answer still to be given
    | AuthSeen(at: Node, peer: Node, blocked: bool)
    | AuthAnswer(at: Node, peer: Node, blocked: bool, known: bool)
    // AddPeer, before it lifts the block, then before its critical section
    | AddStart(at: Node, peer: Node, confirmed: bool, answers: bool)
    | AddCommit(at: Node, peer: Node, confirmed: bool, answers: bool)
    // BlockPeer, before it touches the block list
    | BlockStart(at: Node, peer: Node)

  datatype State = State(
    known: set<Pair>,
    confirmed: set<Pair>,
    declined: set<Pair>,
    blocked: set<Pair>,
    ingoing: set<Pair>,
    outgoing: set<Pair>,
    net: set<Msg>,
    tasks: set<Task>,
    everKnown: set<Pair>,
    everBlocked: set<Pair>)

  const Init := State({}, {}, {}, {}, {}, {}, {}, {}, {}, {})

  datatype Step =
    | UserInvites(x: Node, y: Node)
    | UserAccepts(x: Node, y: Node)
    | UserDeclines(x: Node, y: Node)
    | UserRemoves(x: Node, y: Node)
    | Retry(x: Node, y: Node)
    | Refresh(x: Node, y: Node)
    | Restart(x: Node)
    | RunTask(task: Task, choice: bool)
    | ReceiveAuth(x: Node, y: Node)
    | ReceiveAuthReply(x: Node, y: Node, confirmed: bool, declined: bool)
    | OpenStatus(x: Node, y: Node)
    | ReceiveStatus(x: Node, y: Node, declined: bool, known: bool, blocked: bool)
    | ReceiveStatusReply(x: Node, y: Node, declined: bool, saidDeclined: bool)

  predicate Enabled(s: State, step: Step) {
    match step
    case UserInvites(x, y) => x != y
    case UserAccepts(x, y) => (x, y) in s.ingoing
    case UserDeclines(x, y) => (x, y) in s.ingoing
    case UserRemoves(x, y) => (x, y) in s.known
    case Retry(x, y) => (x, y) in s.outgoing
    case Refresh(x, y) => (x, y) in s.known
    case Restart(x) => true
    case RunTask(task, _) => task in s.tasks && !task.AuthWait? && !task.ExchangeWait? && !task.StatusListening?
    case ReceiveAuth(x, y) => Auth(y, x) in s.net
    case ReceiveAuthReply(x, y, c, d) => AuthReply(y, x, c, d) in s.net && AuthWait(x, y) in s.tasks
    case OpenStatus(x, y) => true
    case ReceiveStatus(x, y, d, k, b) => Status(y, x, d) in s.net && StatusListening(x, y, k, b) in s.tasks
    case ReceiveStatusReply(x, y, d, b) => StatusReply(y, x, d) in s.net && ExchangeWait(x, y, b) in s.tasks
  }

  // ---- Effects -----------------------------------------------------------------------------------

  function Spawn(s: State, task: Task): State { s.(tasks := s.tasks + {task}) }

  function Send(s: State, msg: Msg): State { s.(net := s.net + {msg}) }

  /** processPeerStatusInfo: merged into the record if there still is one. */
  function MergeInfo(s: State, x: Node, y: Node, declined: bool): State {
    if (x, y) !in s.known then s
    else if declined then s.(declined := s.declined + {(x, y)})
    else s.(confirmed := s.confirmed + {(x, y)}, declined := s.declined - {(x, y)})
  }

  /** The critical section of AddPeer and what it starts. */
  function Insert(s: State, x: Node, y: Node, confirmed: bool): State {
    var s1 := s.(known := s.known + {(x, y)}, everKnown := s.everKnown + {(x, y)},
                 confirmed := if confirmed then s.confirmed + {(x, y)} else s.confirmed - {(x, y)},
                 declined := s.declined - {(x, y)},
                 ingoing := s.ingoing - {(x, y)},
                 tasks := s.tasks + {ExchangeStart(x, y)});
    if confirmed then s1 else Spawn(s1, AuthStart(x, y))
  }

  /** One atomic step of a task; `choice` is an outcome the protocol state does not decide. */
  function Run(s: State, task: Task, choice: bool): State {
    match task
    case AuthStart(x, y) =>
      Send(Spawn(s.(outgoing := s.outgoing + {(x, y)}), AuthWait(x, y)), Auth(x, y))
    case ExchangeStart(x, y) =>
      Spawn(s.(ingoing := s.ingoing - {(x, y)}), ExchangeSend(x, y))
    case ExchangeSend(x, y) =>
      var isBlocked := (x, y) in s.blocked;
      Send(Spawn(s, ExchangeWait(x, y, isBlocked)), Status(x, y, isBlocked))
    case StatusOpened(x, y, known) =>
      var isBlocked := (x, y) in s.blocked;
      if !known && !isBlocked then s else Spawn(s, StatusListening(x, y, known, isBlocked))
    case Merge(x, y, declined) => MergeInfo(s, x, y, declined)
    case AuthSeen(x, y, blocked) =>
      var known := (x, y) in s.known;
      // choice: a usable invite or auto-accept
      if !blocked && !known && choice then Spawn(s, AddStart(x, y, true, true))
      else Spawn(s, AuthAnswer(x, y, blocked, known))
    case AuthAnswer(x, y, blocked, known) =>
      Send(if !blocked && !known then s.(ingoing := s.ingoing + {(x, y)}) else s, AuthReply(x, y, known, blocked))
    case AddStart(x, y, confirmed, answers) =>
      Spawn(s.(blocked := s.blocked - {(x, y)}), AddCommit(x, y, confirmed, answers))
    case AddCommit(x, y, confirmed, answers) =>
      // choice: the alias, address and invite checks pass
      var ok := (x, y) !in s.known && choice;
      var s1 := if ok then Insert(s, x, y, confirmed) else s;
      if answers then Spawn(s1, AuthAnswer(x, y, false, ok)) else s1
    case BlockStart(x, y) =>
      s.(blocked := s.blocked + {(x, y)}, everBlocked := s.everBlocked + {(x, y)},
         outgoing := s.outgoing - {(x, y)}, tasks := s.tasks + {ExchangeStart(x, y)})
    case AuthWait(_, _) => s
    case ExchangeWait(_, _, _) => s
    case StatusListening(_, _, _, _) => s
  }

  function Apply(s: State, step: Step): State {
    match step
    case UserInvites(x, y) => Spawn(s, AddStart(x, y, false, false))
    case UserAccepts(x, y) => Spawn(s, AddStart(x, y, true, false))
    case UserDeclines(x, y) => Spawn(s, BlockStart(x, y))
    case UserRemoves(x, y) =>
      Spawn(s.(known := s.known - {(x, y)}, confirmed := s.confirmed - {(x, y)}, declined := s.declined - {(x, y)}),
            BlockStart(x, y))
    case Retry(x, y) => Spawn(s, AuthStart(x, y))
    case Refresh(x, y) => Spawn(s, ExchangeStart(x, y))
    case Restart(x) =>
      s.(tasks := (set t | t in s.tasks && t.at != x),
         ingoing := (set p | p in s.ingoing && p.0 != x),
         outgoing := (set p | p in s.outgoing && p.0 != x)
                   + (set p | p in s.known && p.0 == x && p !in s.confirmed && p !in s.declined))
    case RunTask(task, choice) => Run(s, task, choice)
    case ReceiveAuth(x, y) => Spawn(s, AuthSeen(x, y, (x, y) in s.blocked))
    case ReceiveAuthReply(x, y, confirmed, declined) =>
      var s1 := if confirmed || declined then s.(outgoing := s.outgoing - {(x, y)}) else s;
      if declined && (x, y) in s.known then s1.(declined := s1.declined + {(x, y)}) else s1
    case OpenStatus(x, y) => Spawn(s, StatusOpened(x, y, (x, y) in s.known))
    case ReceiveStatus(x, y, declined, known, blocked) =>
      var s1 := Send(s.(outgoing := s.outgoing - {(x, y)}), StatusReply(x, y, blocked));
      if blocked then s1 else Spawn(s1, Merge(x, y, declined))
    case ReceiveStatusReply(x, y, declined, saidDeclined) =>
      if saidDeclined then s else Spawn(s, Merge(x, y, declined))
  }

  /** `s` may have fewer messages and tasks: lost, delivered, finished, failed to connect, timed out. */
  predicate Loses(t: State, s: State) {
    t == s.(net := t.net, tasks := t.tasks) && t.net <= s.net && t.tasks <= s.tasks
  }

  predicate Next(s: State, t: State, step: Step) {
    Enabled(s, step) && Loses(t, Apply(s, step))
  }

  // ---- The condition the code relies on -------------------------------------------------------------

  /** What x tells y in an exchange has a ground: x blocks y, or had y among its peers. */
  predicate Grounded(s: State, x: Node, y: Node) {
    (x, y) in s.blocked || (x, y) in s.everKnown
  }

  /**
   An exchange reads the block list only when it sends.  A step is careful unless it sends the notice
   of a block that AddPeer has lifted meanwhile without adding the peer.
   */
  predicate Careful(s: State, step: Step) {
    step.RunTask? && step.task.ExchangeSend? ==> Grounded(s, step.task.at, step.task.peer)
  }

  // ---- Refusals: what is said about blocks ----------------------------------------------------------

  predicate RefusalMsg(s: State, m: Msg) {
    !m.Auth? && m.declined ==> (m.src, m.dst) in s.everBlocked
  }

  predicate RefusalTask(s: State, t: Task) {
    match t
    case StatusListening(x, y, _, blocked) => blocked ==> (x, y) in s.everBlocked
    case AuthSeen(x, y, blocked) => blocked ==> (x, y) in s.everBlocked
    case AuthAnswer(x, y, blocked, _) => blocked ==> (x, y) in s.everBlocked
    case Merge(x, y, declined) => declined ==> (y, x) in s.everBlocked
    case _ => true
  }

  /** Every refusal recorded, in flight or in progress goes back to a block. */
  predicate Refusals(s: State) {
    && s.blocked <= s.everBlocked
    && (forall p :: p in s.declined ==> (p.1, p.0) in s.everBlocked)
    && (forall m :: m in s.net ==> RefusalMsg(s, m))
    && (forall t :: t in s.tasks ==> RefusalTask(s, t))
  }

  lemma TaskKeepsRefusals(s: State, task: Task, choice: bool)
    requires Refusals(s) && task in s.tasks
    ensures Refusals(Run(s, task, choice))
  {
    assert RefusalTask(s, task);
  }

  lemma ReceiveKeepsRefusals(s: State, step: Step)
    requires Refusals(s) && Enabled(s, step)
    requires step.ReceiveAuth? || step.ReceiveAuthReply? || step.OpenStatus? || step.ReceiveStatus? || step.ReceiveStatusReply?
    ensures Refusals(Apply(s, step))
  {
    match step
    case ReceiveAuthReply(x, y, c, d) => assert RefusalMsg(s, AuthReply(y, x, c, d));
    case ReceiveStatus(x, y, d, k, b) =>
      assert RefusalMsg(s, Status(y, x, d)) && RefusalTask(s, StatusListening(x, y, k, b));
    case ReceiveStatusReply(x, y, d, b) => assert RefusalMsg(s, StatusReply(y, x, d));
    case _ =>
  }

  lemma UserKeepsRefusals(s: State, step: Step)
    requires Refusals(s) && Enabled(s, step) && !step.RunTask?
    requires !step.ReceiveAuth? && !step.ReceiveAuthReply? && !step.OpenStatus? && !step.ReceiveStatus? && !step.ReceiveStatusReply?
    ensures Refusals(Apply(s, step))
  {
  }

  /** Every step keeps them, whatever the protocol does. */
  lemma StepKeepsRefusals(s: State, t: State, step: Step)
    requires Refusals(s) && Next(s, t, step)
    ensures Refusals(t)
  {
    if step.RunTask? {
      TaskKeepsRefusals(s, step.task, step.choice);
    } else if step.ReceiveAuth? || step.ReceiveAuthReply? || step.OpenStatus? || step.ReceiveStatus? || step.ReceiveStatusReply? {
      ReceiveKeepsRefusals(s, step);
    } else {
      UserKeepsRefusals(s, step);
    }
    LossKeepsRefusals(Apply(s, step), t);
  }

  lemma LossKeepsRefusals(s: State, t: State)
    requires Refusals(s) && Loses(t, s)
    ensures Refusals(t)
  {
  }

  // ---- Consents: what is said about membership --------------------------------------------------------

  predicate ConsentMsg(s: State, m: Msg) {
    match m
    case Auth(x, y) => (x, y) in s.everKnown
    case AuthReply(_, _, _, _) => true
    case Status(x, y, declined) => !declined ==> (x, y) in s.everKnown
    case StatusReply(x, y, declined) => !declined ==> (x, y) in s.everKnown
  }

  predicate ConsentTask(s: State, t: Task) {
    var here, there := (t.at, t.peer), (t.peer, t.at);
    match t
    case AuthStart(_, _) => here in s.everKnown
    case StatusOpened(_, _, known) => known ==> here in s.everKnown
    case StatusListening(_, _, known, blocked) => !blocked ==> here in s.everKnown
    case Merge(_, _, declined) => !declined ==> there in s.everKnown
    case AuthSeen(_, _, _) => there in s.everKnown
    case AuthAnswer(_, _, _, _) => there in s.everKnown
    case AddStart(_, _, confirmed, answers) => confirmed || answers ==> there in s.everKnown
    case AddCommit(_, _, confirmed, answers) => confirmed || answers ==> there in s.everKnown
    case _ => true
  }

  /** Every consent recorded, in flight or in progress goes back to a membership. */
  predicate Consents(s: State) {
    && s.known <= s.everKnown && s.outgoing <= s.everKnown
    && (forall p :: p in s.confirmed ==> (p.1, p.0) in s.everKnown)
    && (forall p :: p in s.ingoing ==> (p.1, p.0) in s.everKnown)
    && (forall m :: m in s.net ==> ConsentMsg(s, m))
    && (forall t :: t in s.tasks ==> ConsentTask(s, t))
  }

  /** Sending a notice keeps them exactly when the notice has a ground. */
  lemma SendKeepsConsents(s: State, x: Node, y: Node, choice: bool)
    requires Consents(s) && ExchangeSend(x, y) in s.tasks
    ensures Consents(Run(s, ExchangeSend(x, y), choice)) <==> Grounded(s, x, y)
  {
    var t := Run(s, ExchangeSend(x, y), choice);
    assert Status(x, y, (x, y) in s.blocked) in t.net;
  }

  lemma TaskKeepsConsents(s: State, task: Task, choice: bool)
    requires Consents(s) && task in s.tasks && !task.ExchangeSend?
    ensures Consents(Run(s, task, choice))
  {
    if task.AddStart? || task.AddCommit? {
      AddKeepsConsents(s, task, choice);
    } else if task.AuthSeen? || task.AuthAnswer? {
      AnswerKeepsConsents(s, task, choice);
    } else {
      assert ConsentTask(s, task);
    }
  }

  lemma AddKeepsConsents(s: State, task: Task, choice: bool)
    requires Consents(s) && task in s.tasks && (task.AddStart? || task.AddCommit?)
    ensures Consents(Run(s, task, choice))
  {
    assert ConsentTask(s, task);
  }

  lemma AnswerKeepsConsents(s: State, task: Task, choice: bool)
    requires Consents(s) && task in s.tasks && (task.AuthSeen? || task.AuthAnswer?)
    ensures Consents(Run(s, task, choice))
  {
    assert ConsentTask(s, task);
  }

  lemma ReceiveKeepsConsents(s: State, step: Step)
    requires Consents(s) && Enabled(s, step)
    requires step.ReceiveAuth? || step.ReceiveAuthReply? || step.OpenStatus? || step.ReceiveStatus? || step.ReceiveStatusReply?
    ensures Consents(Apply(s, step))
  {
    match step
    case ReceiveAuth(x, y) => assert ConsentMsg(s, Auth(y, x));
    case ReceiveStatus(x, y, d, k, b) => StatusKeepsConsents(s, x, y, d, k, b);
    case ReceiveStatusReply(x, y, d, b) => assert ConsentMsg(s, StatusReply(y, x, d));
    case _ =>
  }

  lemma StatusKeepsConsents(s: State, x: Node, y: Node, declined: bool, known: bool, blocked: bool)
    requires Consents(s) && Enabled(s, ReceiveStatus(x, y, declined, known, blocked))
    ensures Consents(Apply(s, ReceiveStatus(x, y, declined, known, blocked)))
  {
    assert ConsentMsg(s, Status(y, x, declined)) && ConsentTask(s, StatusListening(x, y, known, blocked));
  }

  lemma UserKeepsConsents(s: State, step: Step)
    requires Consents(s) && Enabled(s, step) && !step.RunTask?
    requires !step.ReceiveAuth? && !step.ReceiveAuthReply? && !step.OpenStatus? && !step.ReceiveStatus? && !step.ReceiveStatusReply?
    ensures Consents(Apply(s, step))
  {
  }

  lemma StepKeepsConsents(s: State, t: State, step: Step)
    requires Consents(s) && Next(s, t, step) && Careful(s, step)
    ensures Consents(t)
  {
    if step.RunTask? {
      if step.task.ExchangeSend? {
        SendKeepsConsents(s, step.task.at, step.task.peer, step.choice);
      } else {
        TaskKeepsConsents(s, step.task, step.choice);
      }
    } else if step.ReceiveAuth? || step.ReceiveAuthReply? || step.OpenStatus? || step.ReceiveStatus? || step.ReceiveStatusReply? {
      ReceiveKeepsConsents(s, step);
    } else {
      UserKeepsConsents(s, step);
    }
    LossKeepsConsents(Apply(s, step), t);
  }

  lemma LossKeepsConsents(s: State, t: State)
    requires Consents(s) && Loses(t, s)
    ensures Consents(t)
  {
  }

  // ---- Safety over whole runs -------------------------------------------------------------------

  predicate IsRun(states: seq<State>, steps: seq<Step>) {
    && |states| == |steps| + 1 && states[0] == Init
    && forall i {:trigger steps[i]} :: 0 <= i < |steps| ==> Next(states[i], states[i + 1], steps[i])
  }

  predicate IsCarefulRun(states: seq<State>, steps: seq<Step>) {
    IsRun(states, steps) && forall i :: 0 <= i < |steps| ==> Careful(states[i], steps[i])
  }

  lemma {:induction false} RunKeepsRefusals(states: seq<State>, steps: seq<Step>, i: nat)
    requires IsRun(states, steps) && i < |states|
    ensures Refusals(states[i])
  {
    if i > 0 {
      RunKeepsRefusals(states, steps, i - 1);
      StepKeepsRefusals(states[i - 1], states[i], steps[i - 1]);
    }
  }

  lemma {:induction false} RunKeepsConsents(states: seq<State>, steps: seq<Step>, i: nat)
    requires IsCarefulRun(states, steps) && i < |states|
    ensures Consents(states[i])
  {
    if i > 0 {
      RunKeepsConsents(states, steps, i - 1);
      StepKeepsConsents(states[i - 1], states[i], steps[i - 1]);
    }
  }

  /** The history fields record exactly what the run went through. */
  lemma StepHistory(s: State, t: State, step: Step)
    requires Next(s, t, step)
    ensures s.everKnown <= t.everKnown <= s.everKnown + t.known
    ensures s.everBlocked <= t.everBlocked <= s.everBlocked + t.blocked
  {
  }

  lemma {:induction false} KnownIsEverKnown(states: seq<State>, steps: seq<Step>, i: nat)
    requires IsRun(states, steps) && i < |states|
    ensures states[i].known <= states[i].everKnown
  {
    if i > 0 {
      KnownIsEverKnown(states, steps, i - 1);
      assert Next(states[i - 1], states[i], steps[i - 1]);
    }
  }

  lemma {:induction false} KnownBefore(states: seq<State>, steps: seq<Step>, i: nat, p: Pair) returns (j: nat)
    requires IsRun(states, steps) && i < |states| && p in states[i].everKnown
    ensures j <= i && p in states[j].known
  {
    if p in states[i].known {
      j := i;
    } else {
      StepHistory(states[i - 1], states[i], steps[i - 1]);
      j := KnownBefore(states, steps, i - 1, p);
    }
  }

  lemma {:induction false} BlockedBefore(states: seq<State>, steps: seq<Step>, i: nat, p: Pair) returns (j: nat)
    requires IsRun(states, steps) && i < |states| && p in states[i].everBlocked
    ensures j <= i && p in states[j].blocked
  {
    if p in states[i].blocked {
      j := i;
    } else {
      StepHistory(states[i - 1], states[i], steps[i - 1]);
      j := BlockedBefore(states, steps, i - 1, p);
    }
  }

  /** If x records y as Confirmed, then y had added x at some moment up to then. */
  lemma ConfirmedMeansAdded(states: seq<State>, steps: seq<Step>, i: nat, x: Node, y: Node)
    requires IsCarefulRun(states, steps) && i < |states| && (x, y) in states[i].confirmed
    ensures exists j :: 0 <= j <= i && (y, x) in states[j].known
  {
    RunKeepsConsents(states, steps, i);
    var j := KnownBefore(states, steps, i, (y, x));
  }

  /** In every run: if x records y as Declined, then y had blocked x at some moment up to then. */
  lemma DeclinedMeansBlocked(states: seq<State>, steps: seq<Step>, i: nat, x: Node, y: Node)
    requires IsRun(states, steps) && i < |states| && (x, y) in states[i].declined
    ensures exists j :: 0 <= j <= i && (y, x) in states[j].blocked
  {
    RunKeepsRefusals(states, steps, i);
    var j := BlockedBefore(states, steps, i, (y, x));
  }

  // ---- Runs in which every AddPeer that lifts a noticed block succeeds ------------------------------

  /** An exchange of x with y is under way that has not yet looked at the block list. */
  predicate NoticePending(s: State, x: Node, y: Node) {
    ExchangeStart(x, y) in s.tasks || ExchangeSend(x, y) in s.tasks
  }

  /** AddPeer lifts a block, or finds none, while a notice is pending about a peer that never was a member. */
  predicate LiftsUnderNotice(s: State, step: Step) {
    && step.RunTask? && step.task.AddStart?
    && NoticePending(s, step.task.at, step.task.peer) && (step.task.at, step.task.peer) !in s.everKnown
  }

  /** The critical section that belongs to a lift, passing its checks. */
  function CommitOf(t: Task): Step
    requires t.AddStart?
  {
    RunTask(AddCommit(t.at, t.peer, t.confirmed, t.answers), true)
  }

  /** AddPeer is one step and does not fail while a notice about the peer is pending. */
  predicate AddsSucceed(states: seq<State>, steps: seq<Step>)
    requires |states| == |steps| + 1
  {
    forall i :: 0 <= i < |steps| && LiftsUnderNotice(states[i], steps[i]) ==>
      i + 1 == |steps| || steps[i + 1] == CommitOf(steps[i].task)
  }

  /** Every pending notice has a ground, except about the pair in between a lift and its commit. */
  ghost predicate NoticesGrounded(s: State, except: set<Pair>) {
    forall x: Node, y: Node :: NoticePending(s, x, y) ==> Grounded(s, x, y) || (x, y) in except
  }

  lemma StepKeepsNotices(s: State, t: State, step: Step)
    requires NoticesGrounded(s, {}) && s.known <= s.everKnown && Next(s, t, step)
    ensures NoticesGrounded(t, if LiftsUnderNotice(s, step) then {(step.task.at, step.task.peer)} else {})
  {
  }

  lemma CommitGroundsNotice(s: State, t: State, task: Task)
    requires task.AddStart? && NoticesGrounded(s, {(task.at, task.peer)}) && s.known <= s.everKnown
    requires Next(s, t, CommitOf(task))
    ensures NoticesGrounded(t, {})
  {
  }

  /** The pair whose AddPeer is between its two steps. */
  function Between(states: seq<State>, steps: seq<Step>, i: nat): set<Pair>
    requires |states| == |steps| + 1 && i < |states|
  {
    if i > 0 && LiftsUnderNotice(states[i - 1], steps[i - 1]) then {(steps[i - 1].task.at, steps[i - 1].task.peer)} else {}
  }

  lemma {:induction false} NoticesStayGrounded(states: seq<State>, steps: seq<Step>, i: nat)
    requires IsRun(states, steps) && AddsSucceed(states, steps) && i < |states|
    ensures NoticesGrounded(states[i], Between(states, steps, i))
  {
    if i > 0 {
      KnownIsEverKnown(states, steps, i - 1);
      NoticesStayGrounded(states, steps, i - 1);
      var s, t, step := states[i - 1], states[i], steps[i - 1];
      if Between(states, steps, i - 1) == {} {
        StepKeepsNotices(s, t, step);
      } else {
        assert step == CommitOf(steps[i - 2].task);
        CommitGroundsNotice(s, t, steps[i - 2].task);
      }
    }
  }

  /** Such runs are careful: declining and then adding the peer after all does no harm. */
  lemma SuccessfulAddsAreCareful(states: seq<State>, steps: seq<Step>)
    requires IsRun(states, steps) && AddsSucceed(states, steps)
    ensures IsCarefulRun(states, steps)
  {
    forall i | 0 <= i < |steps| ensures Careful(states[i], steps[i]) {
      NoticesStayGrounded(states, steps, i);
      if steps[i].RunTask? && steps[i].task.ExchangeSend? {
        assert Next(states[i], states[i + 1], steps[i]);
        assert NoticePending(states[i], steps[i].task.at, steps[i].task.peer);
      }
    }
  }

  /** If no AddPeer fails while a notice about the peer is pending, Confirmed means that the peer had added us. */
  lemma ConfirmedMeansAddedIfAddsSucceed(states: seq<State>, steps: seq<Step>, i: nat, x: Node, y: Node)
    requires IsRun(states, steps) && AddsSucceed(states, steps) && i < |states| && (x, y) in states[i].confirmed
    ensures exists j :: 0 <= j <= i && (y, x) in states[j].known
  {
    SuccessfulAddsAreCareful(states, steps);
    ConfirmedMeansAdded(states, steps, i, x, y);
  }

  lemma {:induction false} EverKnownStays(states: seq<State>, steps: seq<Step>, j: nat, i: nat, p: Pair)
    requires IsRun(states, steps) && j <= i < |states| && p in states[j].everKnown
    ensures p in states[i].everKnown
    decreases i
  {
    if j < i {
      EverKnownStays(states, steps, j, i - 1, p);
      StepHistory(states[i - 1], states[i], steps[i - 1]);
    }
  }

  /** However many steps lie in between: an add that commits before the notice is sent makes the sending careful. */
  lemma CommitBeforeSendIsCareful(states: seq<State>, steps: seq<Step>, j: nat, i: nat, x: Node, y: Node, confirmed: bool, answers: bool)
    requires IsRun(states, steps) && j < i < |steps|
    requires steps[j] == RunTask(AddCommit(x, y, confirmed, answers), true)
    requires steps[i].RunTask? && steps[i].task == ExchangeSend(x, y)
    ensures Careful(states[i], steps[i])
  {
    KnownIsEverKnown(states, steps, j);
    assert Next(states[j], states[j + 1], steps[j]);
    assert (x, y) in states[j + 1].everKnown;
    EverKnownStays(states, steps, j + 1, i, (x, y));
  }

  // ---- Without the condition ---------------------------------------------------------------------

  predicate Playable(s: State, steps: seq<Step>)
    decreases |steps|
  {
    steps == [] || (Enabled(s, steps[0]) && Playable(Apply(s, steps[0]), steps[1..]))
  }

  function Play(s: State, steps: seq<Step>): State
    decreases |steps|
  {
    if steps == [] then s else Play(Apply(s, steps[0]), steps[1..])
  }

  /** y is Confirmed at x although y never had x among its peers. */
  predicate Violated(s: State, x: Node, y: Node) {
    (x, y) in s.confirmed && (y, x) !in s.everKnown
  }

  lemma Unfold(s: State, step: Step, rest: seq<Step>)
    ensures Playable(s, [step] + rest) <==> Enabled(s, step) && Playable(Apply(s, step), rest)
    ensures Play(s, [step] + rest) == Play(Apply(s, step), rest)
  {
  }

  /**
   The condition is exact: wherever a notice is sent without a ground, the protocol can go on to a
   state in which the peer records a confirmation that was never given.
   */
  lemma CarelessSendViolates(s: State, x: Node, y: Node) returns (steps: seq<Step>)
    requires x != y && ExchangeSend(x, y) in s.tasks && !Grounded(s, x, y)
    ensures |steps| > 0 && steps[0] == RunTask(ExchangeSend(x, y), false) && !Careful(s, steps[0])
    ensures Playable(s, steps) && Violated(Play(s, steps), y, x)
  {
    var send := RunTask(ExchangeSend(x, y), false);
    var rest := NoticeBecomesConsent(Apply(s, send), x, y);
    steps := [send] + rest;
    Unfold(s, send, rest);
  }

  /** With such a notice in flight, a peer that adds the sender records its confirmation. */
  lemma NoticeBecomesConsent(s: State, x: Node, y: Node) returns (steps: seq<Step>)
    requires x != y && Status(x, y, false) in s.net && (x, y) !in s.everKnown
    ensures Playable(s, steps) && Violated(Play(s, steps), y, x)
  {
    var a, b, c := UserInvites(y, x), RunTask(AddStart(y, x, false, false), true), RunTask(AddCommit(y, x, false, false), true);
    var s3 := Apply(Apply(Apply(s, a), b), c);
    assert (y, x) in s3.known && (y, x) !in s3.blocked && (x, y) !in s3.everKnown;
    var rest := NoticeReceived(s3, x, y);
    Unfold(Apply(Apply(s, a), b), c, rest);
    Unfold(Apply(s, a), b, [c] + rest);
    Unfold(s, a, [b] + ([c] + rest));
    steps := [a] + ([b] + ([c] + rest));
  }

  lemma NoticeReceived(s: State, x: Node, y: Node) returns (steps: seq<Step>)
    requires Status(x, y, false) in s.net && (x, y) !in s.everKnown && (y, x) in s.known && (y, x) !in s.blocked
    ensures Playable(s, steps) && Violated(Play(s, steps), y, x)
  {
    var b := OpenStatus(y, x);
    var c, d := RunTask(StatusOpened(y, x, true), false), ReceiveStatus(y, x, false, true, false);
    var e := RunTask(Merge(y, x, false), false);
    var s2 := Apply(s, b);
    var s3 := Apply(s2, c);
    var s4 := Apply(s3, d);
    assert StatusOpened(y, x, true) in s2.tasks;
    assert StatusListening(y, x, true, false) in s3.tasks && Merge(y, x, false) in s4.tasks;
    Unfold(s4, e, []);
    Unfold(s3, d, [e]);
    Unfold(s2, c, [d] + [e]);
    Unfold(s, b, [c] + ([d] + [e]));
    steps := [b] + ([c] + ([d] + [e]));
  }

  /**
   A concrete run: node 0 invites node 1; node 1 declines, tries to add node 0 while its notice is
   pending, lifting the block, and the add fails; the notice then reads as consent.
   */
  lemma ViolationReachable() returns (steps: seq<Step>)
    ensures Playable(Init, steps) && Violated(Play(Init, steps), 0, 1)
  {
    var a := Asked();
    var s1 := Play(Init, a);
    var b := DeclinedThenLifted(s1);
    var s2 := Play(s1, b);
    var c := CarelessSendViolates(s2, 1, 0);
    PlayConcat(s1, b, c);
    PlayConcat(Init, a, b + c);
    steps := a + (b + c);
  }

  lemma {:induction false} PlayConcat(s: State, a: seq<Step>, b: seq<Step>)
    requires Playable(s, a) && Playable(Play(s, a), b)
    ensures Playable(s, a + b) && Play(s, a + b) == Play(Play(s, a), b)
    decreases |a|
  {
    if a == [] {
      assert a + b == b;
    } else {
      PlayConcat(Apply(s, a[0]), a[1..], b);
      assert a + b == [a[0]] + (a[1..] + b);
    }
  }

  lemma Asked() returns (steps: seq<Step>)
    ensures Playable(Init, steps) && (1, 0) in Play(Init, steps).ingoing && (1, 0) !in Play(Init, steps).everKnown
  {
    var a, b := UserInvites(0, 1), RunTask(AddStart(0, 1, false, false), true);
    var c, d := RunTask(AddCommit(0, 1, false, false), true), RunTask(AuthStart(0, 1), true);
    var s4 := Apply(Apply(Apply(Apply(Init, a), b), c), d);
    assert Auth(0, 1) in s4.net && (1, 0) !in s4.known && (1, 0) !in s4.blocked && (1, 0) !in s4.everKnown;
    var rest := LandsAsRequest(s4);
    Unfold(Apply(Apply(Apply(Init, a), b), c), d, rest);
    Unfold(Apply(Apply(Init, a), b), c, [d] + rest);
    Unfold(Apply(Init, a), b, [c] + ([d] + rest));
    Unfold(Init, a, [b] + ([c] + ([d] + rest)));
    steps := [a] + ([b] + ([c] + ([d] + rest)));
  }

  lemma LandsAsRequest(s: State) returns (steps: seq<Step>)
    requires Auth(0, 1) in s.net && (1, 0) !in s.known && (1, 0) !in s.blocked && (1, 0) !in s.everKnown
    ensures Playable(s, steps) && (1, 0) in Play(s, steps).ingoing && (1, 0) !in Play(s, steps).everKnown
  {
    var a, b, c := ReceiveAuth(1, 0), RunTask(AuthSeen(1, 0, false), false), RunTask(AuthAnswer(1, 0, false, false), false);
    Unfold(Apply(Apply(s, a), b), c, []);
    Unfold(Apply(s, a), b, [c]);
    Unfold(s, a, [b] + [c]);
    steps := [a] + ([b] + [c]);
  }

  lemma DeclinedThenLifted(s: State) returns (steps: seq<Step>)
    requires (1, 0) in s.ingoing && (1, 0) !in s.everKnown
    ensures Playable(s, steps) && ExchangeSend(1, 0) in Play(s, steps).tasks && !Grounded(Play(s, steps), 1, 0)
  {
    var a, b, c := UserDeclines(1, 0), RunTask(BlockStart(1, 0), false), RunTask(ExchangeStart(1, 0), false);
    var d, e := UserInvites(1, 0), RunTask(AddStart(1, 0, false, false), false);
    var f := RunTask(AddCommit(1, 0, false, false), false);
    var s3 := Apply(Apply(Apply(s, a), b), c);
    var s5 := Apply(Apply(s3, d), e);
    assert ExchangeSend(1, 0) in s3.tasks && AddCommit(1, 0, false, false) in s5.tasks && !Grounded(s5, 1, 0);
    Unfold(s5, f, []);
    Unfold(Apply(s3, d), e, [f]);
    Unfold(s3, d, [e] + [f]);
    Unfold(Apply(Apply(s, a), b), c, [d] + ([e] + [f]));
    Unfold(Apply(s, a), b, [c] + ([d] + ([e] + [f])));
    Unfold(s, a, [b] + ([c] + ([d] + ([e] + [f]))));
    steps := [a] + ([b] + ([c] + ([d] + ([e] + [f]))));
  }
}
