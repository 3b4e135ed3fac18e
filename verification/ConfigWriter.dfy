/**
 Saving the configuration (config/config.go): callers change the configuration in memory and drop a
 token into a channel of capacity one; a writer goroutine takes tokens, takes a snapshot and writes it.
 Memory contents are numbered by the changes made to them.  Any step of any caller may come between
 any two steps of the writer.
 */
module ConfigWriter {
  /** Where the writer is; `last` marks the final flush. */
  datatype Phase = Waiting | Holding(last: bool) | Snapshot(version: nat, last: bool) | Stopped

  /** `saved` is the version at the latest Save, `closedAt` the version when Close was called. */
  datatype State = State(memory: nat, saved: nat, token: bool, closing: bool, closedAt: nat, writer: Phase, disk: nat)

  datatype Step = Change | Save | Close | TakeToken | SeeClose | Marshal | Write | WriteFails

  const START := State(0, 0, false, false, 0, Waiting, 0)

  predicate WriterStep(step: Step) { step.TakeToken? || step.SeeClose? || step.Marshal? || step.Write? || step.WriteFails? }

  predicate Enabled(s: State, step: Step) {
    match step
    case Change => true
    case Save => true
    case Close => !s.closing
    case TakeToken => s.writer.Waiting? && s.token
    case SeeClose => s.writer.Waiting? && s.closing
    case Marshal => s.writer.Holding?
    case Write => s.writer.Snapshot?
    case WriteFails => s.writer.Snapshot?
  }

  function Apply(s: State, step: Step): State
    requires Enabled(s, step)
  {
    match step
    case Change => s.(memory := s.memory + 1)
    case Save => s.(token := true, saved := s.memory)
    case Close => s.(closing := true, closedAt := s.memory)
    case TakeToken => s.(token := false, writer := Holding(false))
    case SeeClose => s.(writer := Holding(true))
    case Marshal => s.(writer := Snapshot(s.memory, s.writer.last))
    case Write => s.(disk := s.writer.version, writer := if s.writer.last then Stopped else Waiting)
    case WriteFails => s.(writer := if s.writer.last then Stopped else Waiting)
  }

  /** The latest Save is on disk, or something is under way that will put it there. */
  predicate Covered(s: State) {
    || s.disk >= s.saved
    || s.token
    || s.writer.Holding?
    || (s.writer.Snapshot? && s.writer.version >= s.saved)
  }

  /** How the versions relate, whether writes fail or not. */
  predicate Ordered(s: State) {
    && s.saved <= s.memory && s.disk <= s.memory && s.closedAt <= s.memory
    && (s.writer.Snapshot? ==> s.disk <= s.writer.version <= s.memory)
    && ((s.writer.Holding? || s.writer.Snapshot?) && s.writer.last ==> s.closing)
    && (s.writer.Snapshot? && s.writer.last ==> s.closedAt <= s.writer.version)
    && (s.writer.Stopped? ==> s.closing)
  }

  predicate Inv(s: State) {
    && Ordered(s)
    && (s.writer.Stopped? ==> s.closedAt <= s.disk)
    && (!s.writer.Stopped? ==> Covered(s))
  }

  predicate IsRun(t: seq<State>, steps: seq<Step>) {
    && |t| == |steps| + 1 && t[0] == START
    && forall i {:trigger steps[i]} :: 0 <= i < |steps| ==> Enabled(t[i], steps[i]) && t[i + 1] == Apply(t[i], steps[i])
  }

  predicate NoWriteFails(steps: seq<Step>) {
    forall i :: 0 <= i < |steps| ==> steps[i] != WriteFails
  }

  lemma StepKeepsInv(s: State, step: Step)
    requires Inv(s) && Enabled(s, step) && step != WriteFails
    ensures Inv(Apply(s, step)) && s.disk <= Apply(s, step).disk
  {
  }

  /** At every point of every run the latest Save is covered, until the writer stops after the final flush. */
  lemma {:induction false} RunKeepsInv(t: seq<State>, steps: seq<Step>, i: nat)
    requires IsRun(t, steps) && NoWriteFails(steps) && i < |t|
    ensures Inv(t[i])
  {
    if i > 0 {
      RunKeepsInv(t, steps, i - 1);
      StepKeepsInv(t[i - 1], steps[i - 1]);
    }
  }

  lemma {:induction false} RunKeepsOrder(t: seq<State>, steps: seq<Step>, i: nat)
    requires IsRun(t, steps) && i < |t|
    ensures Ordered(t[i])
  {
    if i > 0 {
      RunKeepsOrder(t, steps, i - 1);
      assert Enabled(t[i - 1], steps[i - 1]);
    }
  }

  /** A version on disk is never replaced by an older one, even if writes fail. */
  lemma {:induction false} DiskNeverGoesBack(t: seq<State>, steps: seq<Step>, i: nat, j: nat)
    requires IsRun(t, steps) && i <= j < |t|
    ensures t[i].disk <= t[j].disk
    decreases j
  {
    if i < j {
      DiskNeverGoesBack(t, steps, i, j - 1);
      RunKeepsOrder(t, steps, j - 1);
      assert Enabled(t[j - 1], steps[j - 1]);
    }
  }

  /** The writer has nothing to do. */
  predicate AtRest(s: State) {
    forall step :: WriterStep(step) ==> !Enabled(s, step)
  }

  lemma {:induction false} Later(t: seq<State>, steps: seq<Step>, i: nat, j: nat)
    requires IsRun(t, steps) && i <= j < |t|
    ensures t[i].memory <= t[j].memory && t[i].saved <= t[j].saved
    ensures t[i].closing ==> t[j].closing && t[j].closedAt == t[i].closedAt
    decreases j
  {
    if i < j {
      Later(t, steps, i, j - 1);
      RunKeepsOrder(t, steps, j - 1);
      assert steps[j - 1] in steps;
    }
  }

  lemma {:induction false} ClosedAtSomeStep(t: seq<State>, steps: seq<Step>, i: nat, j: nat)
    requires IsRun(t, steps) && i <= j < |t| && !t[i].closing && t[j].closing
    ensures t[i].memory <= t[j].closedAt
    decreases j
  {
    if i < j {
      Later(t, steps, i, j - 1);
      assert steps[j - 1] in steps;
      if t[j - 1].closing {
        ClosedAtSomeStep(t, steps, i, j - 1);
      }
    }
  }

  /**
   No save is lost: what a Save saw is on disk whenever the writer comes to rest later on, and if the
   Save came before Close, then also when the writer has stopped.
   */
  lemma SaveReachesDisk(t: seq<State>, steps: seq<Step>, i: nat, j: nat)
    requires IsRun(t, steps) && NoWriteFails(steps) && i < j < |t| && steps[i] == Save
    requires AtRest(t[j]) && (t[j].writer.Stopped? ==> !t[i].closing)
    ensures t[j].disk >= t[i].memory
  {
    RunKeepsInv(t, steps, j);
    assert t[i + 1] == Apply(t[i], steps[i]);
    Later(t, steps, i + 1, j);
    if t[j].writer.Stopped? {
      ClosedAtSomeStep(t, steps, i, j);
    } else {
      assert !Enabled(t[j], TakeToken) && !Enabled(t[j], Marshal) && !Enabled(t[j], Write);
    }
  }

  /** Once the writer has stopped, everything in memory when Close was called is on disk. */
  lemma CloseFlushes(t: seq<State>, steps: seq<Step>, j: nat)
    requires IsRun(t, steps) && NoWriteFails(steps) && j < |t| && t[j].writer.Stopped?
    ensures t[j].closing && t[j].disk >= t[j].closedAt
  {
    RunKeepsInv(t, steps, j);
  }

  // ---- The writer does come to rest ------------------------------------------------------------------

  /** Steps the writer still has to take if nobody else does anything. */
  function Work(s: State): nat {
    (if s.token then 3 else 0)
    + match s.writer
      case Waiting => if s.closing then 3 else 0
      case Holding(last) => if s.closing && !last then 5 else 2
      case Snapshot(_, last) => if s.closing && !last then 4 else 1
      case Stopped => 0
  }

  lemma {:induction false} WorkShrinks(t: seq<State>, steps: seq<Step>, i: nat, j: nat)
    requires IsRun(t, steps) && i <= j < |t|
    requires forall k :: i <= k < j ==> WriterStep(steps[k])
    ensures Work(t[j]) + (j - i) <= Work(t[i])
    decreases j
  {
    if i < j {
      WorkShrinks(t, steps, i, j - 1);
      assert WriterStep(steps[j - 1]);
    }
  }

  /** Left alone, the writer comes to rest within eight steps. */
  lemma WriterSettles(t: seq<State>, steps: seq<Step>, i: nat, j: nat)
    requires IsRun(t, steps) && i <= j < |t|
    requires forall k :: i <= k < j ==> WriterStep(steps[k])
    ensures j - i <= 8
  {
    WorkShrinks(t, steps, i, j);
  }

  // ---- Failing writes --------------------------------------------------------------------------------

  /** A failed write keeps the latest Save covered exactly when an earlier write or a newer token covers it. */
  lemma FailedWriteCovered(s: State)
    requires Inv(s) && Enabled(s, WriteFails)
    ensures Covered(Apply(s, WriteFails)) <==> s.disk >= s.saved || s.token
  {
  }

  /** The writer tries to write version `v` or a later one, at step `k`. */
  predicate Attempt(t: seq<State>, steps: seq<Step>, k: nat, v: nat)
    requires k < |steps| && k < |t|
  {
    (steps[k].Write? || steps[k].WriteFails?) && t[k].writer.Snapshot? && t[k].writer.version >= v
  }

  /** Such an attempt between two moments. */
  predicate Attempted(t: seq<State>, steps: seq<Step>, i: nat, j: nat, v: nat)
    requires i <= j <= |steps| && |t| == |steps| + 1
  {
    exists k: nat :: i <= k < j && Attempt(t, steps, k, v)
  }

  /** Such an attempt that works. */
  predicate WrittenBetween(t: seq<State>, steps: seq<Step>, i: nat, j: nat, v: nat)
    requires i <= j <= |steps| && |t| == |steps| + 1
  {
    exists k: nat :: i <= k < j && Attempt(t, steps, k, v) && steps[k] == Write
  }

  /** Something is under way that will try to write version `v`. */
  predicate Pending(s: State, v: nat) {
    !s.writer.Stopped? && (s.token || s.writer.Holding? || (s.writer.Snapshot? && s.writer.version >= v))
  }

  lemma {:induction false} SaveIsAttempted(t: seq<State>, steps: seq<Step>, i: nat, j: nat)
    requires IsRun(t, steps) && i < j < |t| && steps[i] == Save && !t[i].closing
    ensures Attempted(t, steps, i, j, t[i].memory) || Pending(t[j], t[i].memory)
    decreases j
  {
    var v := t[i].memory;
    RunKeepsOrder(t, steps, j - 1);
    assert Enabled(t[j - 1], steps[j - 1]) && t[j] == Apply(t[j - 1], steps[j - 1]);
    if j > i + 1 {
      SaveIsAttempted(t, steps, i, j - 1);
      Later(t, steps, i, j - 1);
      if t[j - 1].closing {
        ClosedAtSomeStep(t, steps, i, j - 1);
      }
      if Attempted(t, steps, i, j - 1, v) {
        var k: nat :| i <= k < j - 1 && Attempt(t, steps, k, v);
      } else {
        assert Attempt(t, steps, j - 1, v) || Pending(t[j], v);
      }
    }
  }

  lemma {:induction false} DiskHolds(t: seq<State>, steps: seq<Step>, i: nat, j: nat, v: nat)
    requires IsRun(t, steps) && i <= j < |t|
    ensures t[j].disk >= v <==> t[i].disk >= v || WrittenBetween(t, steps, i, j, v)
    decreases j
  {
    if i < j {
      DiskHolds(t, steps, i, j - 1, v);
      RunKeepsOrder(t, steps, j - 1);
      assert Enabled(t[j - 1], steps[j - 1]) && t[j] == Apply(t[j - 1], steps[j - 1]);
      if WrittenBetween(t, steps, i, j - 1, v) {
        var k: nat :| i <= k < j - 1 && Attempt(t, steps, k, v) && steps[k] == Write;
        assert WrittenBetween(t, steps, i, j, v);
      } else if steps[j - 1] == Write && t[j - 1].writer.version >= v {
        assert Attempt(t, steps, j - 1, v);
      }
    }
  }

  /**
   With failing writes: once the writer rests, every save made before Close has been attempted, and
   what it saw is on disk exactly when it was already or one of the attempts worked.
   */
  lemma SaveOnDiskIff(t: seq<State>, steps: seq<Step>, i: nat, j: nat)
    requires IsRun(t, steps) && i < j < |t| && steps[i] == Save && !t[i].closing && AtRest(t[j])
    ensures Attempted(t, steps, i, j, t[i].memory)
    ensures t[j].disk >= t[i].memory <==> t[i].disk >= t[i].memory || WrittenBetween(t, steps, i, j, t[i].memory)
  {
    SaveIsAttempted(t, steps, i, j);
    assert !Enabled(t[j], TakeToken) && !Enabled(t[j], Marshal) && !Enabled(t[j], Write);
    DiskHolds(t, steps, i, j, t[i].memory);
  }

  /** A save can be lost for good when its write fails: nothing tries again. */
  lemma FailedWriteLosesSave() returns (t: seq<State>, steps: seq<Step>)
    ensures IsRun(t, steps) && AtRest(t[|t| - 1]) && t[|t| - 1].disk < t[|t| - 1].saved
  {
    steps := [Change, Save, TakeToken, Marshal, WriteFails];
    var s1 := Apply(START, Change);
    var s2 := Apply(s1, Save);
    var s3 := Apply(s2, TakeToken);
    var s4 := Apply(s3, Marshal);
    t := [START, s1, s2, s3, s4, Apply(s4, WriteFails)];
  }
}
