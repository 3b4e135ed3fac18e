/**
 Who is let in, over all runs of the handshake (AuthStreamHandler and AddPeer of
 service/auth_status.go): a pair leaves the block list or becomes a member only through the node's
 own user or through a handler that read the block list while the pair was not in it, and what a
 handler answers is what it read.
 */
module Admission {
  import opened Handshake

  /** An auth request from y was taken in at x, and the block list read, before moment `i`. */
  predicate Seen(t: seq<State>, steps: seq<Step>, i: nat, x: Node, y: Node, blocked: bool)
    requires IsRun(t, steps) && i < |t|
  {
    exists k: nat :: k < i && steps[k] == ReceiveAuth(x, y) && (blocked <==> (x, y) in t[k].blocked)
  }

  /** A handler that had read the pair as not blocked found it unknown, too, and went on to add it. */
  predicate TakenIn(t: seq<State>, steps: seq<Step>, i: nat, x: Node, y: Node)
    requires IsRun(t, steps) && i < |t|
  {
    exists k: nat :: k < i && steps[k] == RunTask(AuthSeen(x, y, false), true) && (x, y) !in t[k].known
  }

  /** The user of x asked for it. */
  predicate Wanted(t: seq<State>, steps: seq<Step>, i: nat, x: Node, y: Node)
    requires IsRun(t, steps) && i < |t|
  {
    exists k: nat :: k < i && (steps[k] == UserInvites(x, y) || steps[k] == UserAccepts(x, y))
  }

  /** Why an AddPeer is under way. */
  predicate LetIn(t: seq<State>, steps: seq<Step>, i: nat, x: Node, y: Node)
    requires IsRun(t, steps) && i < |t|
  {
    Wanted(t, steps, i, x, y) || (Seen(t, steps, i, x, y, false) && TakenIn(t, steps, i, x, y))
  }

  lemma SeenLater(t: seq<State>, steps: seq<Step>, i: nat, j: nat, x: Node, y: Node, blocked: bool)
    requires IsRun(t, steps) && i <= j < |t| && Seen(t, steps, i, x, y, blocked)
    ensures Seen(t, steps, j, x, y, blocked)
  {
  }

  lemma LetInLater(t: seq<State>, steps: seq<Step>, i: nat, j: nat, x: Node, y: Node)
    requires IsRun(t, steps) && i <= j < |t| && LetIn(t, steps, i, x, y)
    ensures LetIn(t, steps, j, x, y)
  {
  }

  /** Every handler under way has read the block list. */
  lemma {:induction false} SeenHasOrigin(t: seq<State>, steps: seq<Step>, i: nat, x: Node, y: Node, blocked: bool)
    requires IsRun(t, steps) && i < |t| && AuthSeen(x, y, blocked) in t[i].tasks
    ensures Seen(t, steps, i, x, y, blocked)
  {
    if i > 0 {
      assert Next(t[i - 1], t[i], steps[i - 1]);
      if AuthSeen(x, y, blocked) in t[i - 1].tasks {
        SeenHasOrigin(t, steps, i - 1, x, y, blocked);
        SeenLater(t, steps, i - 1, i, x, y, blocked);
      } else {
        NewSeen(t[i - 1], steps[i - 1], x, y, blocked);
      }
    }
  }

  lemma NewSeen(s: State, step: Step, x: Node, y: Node, blocked: bool)
    requires Enabled(s, step) && AuthSeen(x, y, blocked) in Apply(s, step).tasks && AuthSeen(x, y, blocked) !in s.tasks
    ensures step == ReceiveAuth(x, y) && (blocked <==> (x, y) in s.blocked)
  {
  }

  /** An AddPeer of x for y, lifting the block or about to insert. */
  predicate Adding(s: State, x: Node, y: Node, confirmed: bool, answers: bool) {
    AddStart(x, y, confirmed, answers) in s.tasks || AddCommit(x, y, confirmed, answers) in s.tasks
  }

  /** Every AddPeer under way was let in. */
  lemma {:induction false} AddHasOrigin(t: seq<State>, steps: seq<Step>, i: nat, x: Node, y: Node, confirmed: bool, answers: bool)
    requires IsRun(t, steps) && i < |t| && Adding(t[i], x, y, confirmed, answers)
    ensures LetIn(t, steps, i, x, y)
  {
    if i > 0 {
      assert Next(t[i - 1], t[i], steps[i - 1]);
      if Adding(t[i - 1], x, y, confirmed, answers) {
        AddHasOrigin(t, steps, i - 1, x, y, confirmed, answers);
        LetInLater(t, steps, i - 1, i, x, y);
      } else {
        NewAdd(t[i - 1], steps[i - 1], x, y, confirmed, answers);
        if steps[i - 1].RunTask? {
          SeenHasOrigin(t, steps, i - 1, x, y, false);
          SeenLater(t, steps, i - 1, i, x, y, false);
        }
      }
    }
  }

  lemma NewAdd(s: State, step: Step, x: Node, y: Node, confirmed: bool, answers: bool)
    requires Enabled(s, step) && Adding(Apply(s, step), x, y, confirmed, answers) && !Adding(s, x, y, confirmed, answers)
    ensures step == UserInvites(x, y) || step == UserAccepts(x, y)
            || (step == RunTask(AuthSeen(x, y, false), true) && (x, y) !in s.known && AuthSeen(x, y, false) in s.tasks)
  {
  }

  /** Only an AddPeer lifts a block or makes a member. */
  lemma OnlyAddsAdmit(s: State, step: Step, x: Node, y: Node)
    requires Enabled(s, step)
    requires ((x, y) in s.blocked && (x, y) !in Apply(s, step).blocked) || ((x, y) !in s.known && (x, y) in Apply(s, step).known)
    ensures step.RunTask? && exists confirmed, answers :: Adding(s, x, y, confirmed, answers)
  {
    if step.RunTask? && (step.task.AddStart? || step.task.AddCommit?) {
      assert Adding(s, x, y, step.task.confirmed, step.task.answers);
    }
  }

  /**
   Over all runs: a pair leaves the block list or enters the members only if the user wanted it, or
   an auth handler read the block list while the pair was not in it and found the peer unknown.
   */
  lemma AdmittedOnlyIfLetIn(t: seq<State>, steps: seq<Step>, i: nat, x: Node, y: Node)
    requires IsRun(t, steps) && i < |steps|
    requires ((x, y) in t[i].blocked && (x, y) !in t[i + 1].blocked) || ((x, y) !in t[i].known && (x, y) in t[i + 1].known)
    ensures LetIn(t, steps, i, x, y)
  {
    assert Next(t[i], t[i + 1], steps[i]);
    OnlyAddsAdmit(t[i], steps[i], x, y);
    var confirmed, answers :| Adding(t[i], x, y, confirmed, answers);
    AddHasOrigin(t, steps, i, x, y, confirmed, answers);
  }

  // ---- A blocked peer stays out ------------------------------------------------------------------------

  /** x blocks y, does not have it, and nothing that began before the block can still let it in. */
  predicate ShutOut(s: State, x: Node, y: Node) {
    && (x, y) in s.blocked && (x, y) !in s.known && AuthSeen(x, y, false) !in s.tasks
    && forall confirmed, answers :: !Adding(s, x, y, confirmed, answers)
  }

  lemma StepKeepsShutOut(s: State, u: State, step: Step, x: Node, y: Node)
    requires ShutOut(s, x, y) && Next(s, u, step) && step != UserInvites(x, y) && step != UserAccepts(x, y)
    ensures ShutOut(u, x, y)
  {
    if (x, y) !in u.blocked || (x, y) in u.known {
      OnlyAddsAdmit(s, step, x, y);
    }
    if AuthSeen(x, y, false) in u.tasks {
      NewSeen(s, step, x, y, false);
    }
    forall confirmed, answers ensures !Adding(u, x, y, confirmed, answers) {
      if Adding(u, x, y, confirmed, answers) {
        NewAdd(s, step, x, y, confirmed, answers);
      }
    }
  }

  /** Whatever y sends, invites and auto-accept included: until the user of x says otherwise, y stays out. */
  lemma {:induction false} BlockedStaysOut(t: seq<State>, steps: seq<Step>, i: nat, j: nat, x: Node, y: Node)
    requires IsRun(t, steps) && i <= j < |t| && ShutOut(t[i], x, y)
    requires forall k :: i <= k < j ==> steps[k] != UserInvites(x, y) && steps[k] != UserAccepts(x, y)
    ensures ShutOut(t[j], x, y)
    decreases j
  {
    if i < j {
      BlockedStaysOut(t, steps, i, j - 1, x, y);
      assert Next(t[j - 1], t[j], steps[j - 1]);
      StepKeepsShutOut(t[j - 1], t[j], steps[j - 1], x, y);
    }
  }

  // ---- What a handler answers --------------------------------------------------------------------------

  /** At step `k` the handler read the members, or its own AddPeer ended, and this is what it found. */
  predicate FoundAt(t: seq<State>, steps: seq<Step>, k: nat, x: Node, y: Node, blocked: bool, known: bool)
    requires IsRun(t, steps) && k < |steps|
  {
    && steps[k].RunTask?
    && (|| (steps[k].task == AuthSeen(x, y, blocked) && (known <==> (x, y) in t[k].known))
        || (!blocked && steps[k].task == AddCommit(x, y, true, true) && (known <==> steps[k].choice && (x, y) !in t[k].known)))
  }

  predicate Found(t: seq<State>, steps: seq<Step>, i: nat, x: Node, y: Node, blocked: bool, known: bool)
    requires IsRun(t, steps) && i < |t|
  {
    exists k: nat :: k < i && FoundAt(t, steps, k, x, y, blocked, known)
  }

  lemma FoundLater(t: seq<State>, steps: seq<Step>, i: nat, j: nat, x: Node, y: Node, blocked: bool, known: bool)
    requires IsRun(t, steps) && i <= j < |t| && Found(t, steps, i, x, y, blocked, known)
    ensures Found(t, steps, j, x, y, blocked, known)
  {
    var k: nat :| k < i && FoundAt(t, steps, k, x, y, blocked, known);
  }

  /** Adds on behalf of a handler record the peer as confirmed. */
  lemma {:induction false} HandlersConfirm(t: seq<State>, steps: seq<Step>, i: nat, x: Node, y: Node, confirmed: bool)
    requires IsRun(t, steps) && i < |t| && Adding(t[i], x, y, confirmed, true)
    ensures confirmed
  {
    if i > 0 {
      assert Next(t[i - 1], t[i], steps[i - 1]);
      if Adding(t[i - 1], x, y, confirmed, true) {
        HandlersConfirm(t, steps, i - 1, x, y, confirmed);
      } else {
        NewHandlerAdd(t[i - 1], steps[i - 1], x, y, confirmed);
      }
    }
  }

  lemma NewHandlerAdd(s: State, step: Step, x: Node, y: Node, confirmed: bool)
    requires Enabled(s, step) && Adding(Apply(s, step), x, y, confirmed, true) && !Adding(s, x, y, confirmed, true)
    ensures confirmed
  {
  }

  lemma {:induction false} AnswerHasOrigin(t: seq<State>, steps: seq<Step>, i: nat, x: Node, y: Node, blocked: bool, known: bool)
    requires IsRun(t, steps) && i < |t| && AuthAnswer(x, y, blocked, known) in t[i].tasks
    ensures Seen(t, steps, i, x, y, blocked) && Found(t, steps, i, x, y, blocked, known)
  {
    if i > 0 {
      assert Next(t[i - 1], t[i], steps[i - 1]);
      if AuthAnswer(x, y, blocked, known) in t[i - 1].tasks {
        AnswerHasOrigin(t, steps, i - 1, x, y, blocked, known);
        FoundLater(t, steps, i - 1, i, x, y, blocked, known);
      } else {
        AnswerBegins(t, steps, i - 1, x, y, blocked, known);
      }
      SeenLater(t, steps, i - 1, i, x, y, blocked);
    }
  }

  lemma AnswerBegins(t: seq<State>, steps: seq<Step>, i: nat, x: Node, y: Node, blocked: bool, known: bool)
    requires IsRun(t, steps) && i < |steps|
    requires AuthAnswer(x, y, blocked, known) in t[i + 1].tasks && AuthAnswer(x, y, blocked, known) !in t[i].tasks
    ensures Seen(t, steps, i, x, y, blocked) && FoundAt(t, steps, i, x, y, blocked, known)
  {
    assert Next(t[i], t[i + 1], steps[i]);
    NewAnswer(t[i], steps[i], x, y, blocked, known);
    if steps[i].task.AuthSeen? {
      SeenHasOrigin(t, steps, i, x, y, blocked);
    } else {
      HandlersConfirm(t, steps, i, x, y, steps[i].task.confirmed);
      HandlerHasSeen(t, steps, i, x, y);
    }
  }

  lemma NewAnswer(s: State, step: Step, x: Node, y: Node, blocked: bool, known: bool)
    requires Enabled(s, step) && AuthAnswer(x, y, blocked, known) in Apply(s, step).tasks && AuthAnswer(x, y, blocked, known) !in s.tasks
    ensures step.RunTask? && step.task in s.tasks
    ensures || (step.task == AuthSeen(x, y, blocked) && (known <==> (x, y) in s.known))
            || (!blocked && step.task.AddCommit? && step.task == AddCommit(x, y, step.task.confirmed, true)
                && (known <==> step.choice && (x, y) !in s.known))
  {
  }

  /** An add on behalf of a handler comes from one that read the pair as not blocked. */
  lemma {:induction false} HandlerHasSeen(t: seq<State>, steps: seq<Step>, i: nat, x: Node, y: Node)
    requires IsRun(t, steps) && i < |t| && Adding(t[i], x, y, true, true)
    ensures Seen(t, steps, i, x, y, false)
  {
    if i > 0 {
      assert Next(t[i - 1], t[i], steps[i - 1]);
      if Adding(t[i - 1], x, y, true, true) {
        HandlerHasSeen(t, steps, i - 1, x, y);
      } else {
        NewAdd(t[i - 1], steps[i - 1], x, y, true, true);
        NotByUser(t[i - 1], steps[i - 1], x, y);
        SeenHasOrigin(t, steps, i - 1, x, y, false);
      }
      SeenLater(t, steps, i - 1, i, x, y, false);
    }
  }

  lemma NotByUser(s: State, step: Step, x: Node, y: Node)
    requires Enabled(s, step) && Adding(Apply(s, step), x, y, true, true) && !Adding(s, x, y, true, true)
    ensures step.RunTask?
  {
  }

  /** Over all runs: an answer is declined exactly as the block list was read, and confirmed exactly as was found. */
  lemma {:induction false} AnswersAreHonest(t: seq<State>, steps: seq<Step>, i: nat, x: Node, y: Node, confirmed: bool, declined: bool)
    requires IsRun(t, steps) && i < |t| && AuthReply(x, y, confirmed, declined) in t[i].net
    ensures Seen(t, steps, i, x, y, declined) && Found(t, steps, i, x, y, declined, confirmed)
  {
    if i > 0 {
      assert Next(t[i - 1], t[i], steps[i - 1]);
      if AuthReply(x, y, confirmed, declined) in t[i - 1].net {
        AnswersAreHonest(t, steps, i - 1, x, y, confirmed, declined);
      } else {
        NewReply(t[i - 1], steps[i - 1], x, y, confirmed, declined);
        AnswerHasOrigin(t, steps, i - 1, x, y, declined, confirmed);
      }
      SeenLater(t, steps, i - 1, i, x, y, declined);
      FoundLater(t, steps, i - 1, i, x, y, declined, confirmed);
    }
  }

  lemma NewReply(s: State, step: Step, x: Node, y: Node, confirmed: bool, declined: bool)
    requires Enabled(s, step) && AuthReply(x, y, confirmed, declined) in Apply(s, step).net && AuthReply(x, y, confirmed, declined) !in s.net
    ensures step.RunTask? && step.task == AuthAnswer(x, y, declined, confirmed) && step.task in s.tasks
  {
  }

  /** Whoever was neither blocked nor taken in is offered for a manual accept, and nobody else is. */
  lemma OfferedIff(s: State, step: Step, x: Node, y: Node)
    requires Enabled(s, step) && (x, y) !in s.ingoing
    ensures (x, y) in Apply(s, step).ingoing <==> step.RunTask? && step.task == AuthAnswer(x, y, false, false)
  {
  }

  // ---- What a status records ---------------------------------------------------------------------------

  /** A status from a member settles its record: declined, or confirmed and not declined; from anyone else it changes nothing. */
  lemma StatusSettles(s: State, x: Node, y: Node, declined: bool, choice: bool)
    requires Enabled(s, RunTask(Merge(x, y, declined), choice))
    ensures var u := Run(s, Merge(x, y, declined), choice);
            if (x, y) in s.known then
              && (declined <==> (x, y) in u.declined)
              && ((x, y) in u.confirmed <==> (x, y) in s.confirmed || !declined)
              && u.known == s.known && u.blocked == s.blocked
            else u == s
    ensures forall p :: p != (x, y) ==>
      (p in Run(s, Merge(x, y, declined), choice).confirmed <==> p in s.confirmed)
      && (p in Run(s, Merge(x, y, declined), choice).declined <==> p in s.declined)
  {
  }

  // ---- What changes a record ---------------------------------------------------------------------------

  /** The step is this task of this pair, going through. */
  predicate Does(step: Step, task: Task) { step.RunTask? && step.task == task }

  /** An AddPeer of the pair that gets past its checks. */
  predicate Commits(s: State, step: Step, x: Node, y: Node) {
    step.RunTask? && step.choice && step.task.AddCommit? && step.task.at == x && step.task.peer == y && (x, y) !in s.known
  }

  /** The block list and the members, read backwards: which steps put a pair in and which take it out. */
  lemma MembershipChanges(s: State, step: Step, x: Node, y: Node)
    requires Enabled(s, step)
    ensures (x, y) in Apply(s, step).blocked <==>
      Does(step, BlockStart(x, y))
      || ((x, y) in s.blocked && !(step.RunTask? && step.task.AddStart? && step.task.at == x && step.task.peer == y))
    ensures (x, y) in Apply(s, step).known <==> Commits(s, step, x, y) || ((x, y) in s.known && step != UserRemoves(x, y))
  {
  }

  /** The same for what a peer is recorded as. */
  lemma RecordChanges(s: State, step: Step, x: Node, y: Node)
    requires Enabled(s, step)
    ensures (x, y) in Apply(s, step).confirmed <==>
      || (Commits(s, step, x, y) && step.task.confirmed)
      || (Does(step, Merge(x, y, false)) && (x, y) in s.known)
      || ((x, y) in s.confirmed && step != UserRemoves(x, y) && !Commits(s, step, x, y))
    ensures (x, y) in Apply(s, step).declined <==>
      || ((x, y) in s.known && Does(step, Merge(x, y, true)))
      || ((x, y) in s.known && step.ReceiveAuthReply? && step.x == x && step.y == y && step.declined)
      || ((x, y) in s.declined && step != UserRemoves(x, y) && !Commits(s, step, x, y)
          && !(Does(step, Merge(x, y, false)) && (x, y) in s.known))
  {
  }

  /** And for the requests a node has sent and not had answered. */
  lemma RequestChanges(s: State, step: Step, x: Node, y: Node)
    requires Enabled(s, step)
    ensures (x, y) in Apply(s, step).outgoing <==>
      if step == Restart(x) then (x, y) in s.known && (x, y) !in s.confirmed && (x, y) !in s.declined
      else
        || Does(step, AuthStart(x, y))
        || ((x, y) in s.outgoing && !Does(step, BlockStart(x, y))
            && !(step.ReceiveAuthReply? && step.x == x && step.y == y && (step.confirmed || step.declined))
            && !(step.ReceiveStatus? && step.x == x && step.y == y))
  {
  }

  /** What a handler does with a request it has read: it adds a stranger it may take in, or answers with what it found. */
  lemma HandlerDecides(s: State, x: Node, y: Node, blocked: bool, choice: bool)
    ensures var u, known := Run(s, AuthSeen(x, y, blocked), choice), (x, y) in s.known;
            u == s.(tasks := s.tasks + {if !blocked && !known && choice then AddStart(x, y, true, true)
                                        else AuthAnswer(x, y, blocked, known)})
  {
  }

  // ---- What a step sets going --------------------------------------------------------------------------

  /** Which messages a step puts on the way, and what they say. */
  lemma MessageChanges(s: State, step: Step, x: Node, y: Node, said: bool)
    requires Enabled(s, step)
    ensures Auth(x, y) in Apply(s, step).net <==> Auth(x, y) in s.net || Does(step, AuthStart(x, y))
    ensures Status(x, y, said) in Apply(s, step).net <==>
      Status(x, y, said) in s.net || (Does(step, ExchangeSend(x, y)) && (said <==> (x, y) in s.blocked))
    ensures StatusReply(x, y, said) in Apply(s, step).net <==>
      StatusReply(x, y, said) in s.net || (step.ReceiveStatus? && step.x == x && step.y == y && step.blocked == said)
  {
  }

  /** An add that went through starts an exchange, and a request for confirmation if it has none. */
  lemma AddSetsGoing(s: State, step: Step, x: Node, y: Node)
    requires Enabled(s, step) && !step.Restart?
    ensures ExchangeStart(x, y) in Apply(s, step).tasks <==>
      ExchangeStart(x, y) in s.tasks || Commits(s, step, x, y) || Does(step, BlockStart(x, y)) || step == Refresh(x, y)
    ensures AuthStart(x, y) in Apply(s, step).tasks <==>
      AuthStart(x, y) in s.tasks || (Commits(s, step, x, y) && !step.task.confirmed) || step == Retry(x, y)
  {
  }

  /** What the user asks for begins. */
  lemma UserSetsGoing(s: State, step: Step, x: Node, y: Node)
    requires Enabled(s, step) && !step.Restart?
    ensures AddStart(x, y, false, false) in Apply(s, step).tasks <==> AddStart(x, y, false, false) in s.tasks || step == UserInvites(x, y)
    ensures AddStart(x, y, true, false) in Apply(s, step).tasks <==> AddStart(x, y, true, false) in s.tasks || step == UserAccepts(x, y)
    ensures BlockStart(x, y) in Apply(s, step).tasks <==>
      BlockStart(x, y) in s.tasks || step == UserDeclines(x, y) || step == UserRemoves(x, y)
  {
  }

  /** A status is listened to from members and blocked peers alone, and merged unless its sender is blocked. */
  lemma StatusSetsGoing(s: State, step: Step, x: Node, y: Node, known: bool, blocked: bool, declined: bool)
    requires Enabled(s, step) && !step.Restart?
    ensures StatusListening(x, y, known, blocked) in Apply(s, step).tasks <==>
      StatusListening(x, y, known, blocked) in s.tasks
      || (Does(step, StatusOpened(x, y, known)) && (known || blocked) && (blocked <==> (x, y) in s.blocked))
    ensures Merge(x, y, declined) in Apply(s, step).tasks <==>
      || Merge(x, y, declined) in s.tasks
      || (step.ReceiveStatus? && step.x == x && step.y == y && step.declined == declined && !step.blocked)
      || (step.ReceiveStatusReply? && step.x == x && step.y == y && step.declined == declined && !step.saidDeclined)
  {
  }

  /** A restart ends what the node was doing and changes nothing it has stored. */
  lemma RestartForgets(s: State, x: Node)
    ensures var u := Apply(s, Restart(x));
            && u.known == s.known && u.confirmed == s.confirmed && u.declined == s.declined && u.blocked == s.blocked && u.net == s.net
            && (forall t :: t in u.tasks <==> t in s.tasks && t.at != x)
            && (forall p :: p in u.ingoing <==> p in s.ingoing && p.0 != x)
  {
  }
}
