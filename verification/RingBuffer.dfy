/** The log buffer (ringbuffer/ring_buffer.go): an array that keeps the last bytes of an unbounded history. */
module RingBuffer {
  import opened Bytes

  /** The position beyond which the buffer is compacted: 17 tenths of the nominal size. */
  function Threshold(size: nat): nat { size * 17 / 10 }

  function Min(a: int, b: int): int { if a < b then a else b }

  /** What is always free after compaction. */
  function Slack(size: nat): int { 2 * size - Threshold(size) }

  function StartAt(size: nat, pos: nat): nat { if pos > Threshold(size) then size else pos }

  /** The last `n` elements. */
  function Last(s: seq<byte>, n: nat): seq<byte>
    requires n <= |s|
  {
    s[|s| - n..]
  }

  class RingBuffer {
    const size: nat
    const buf: array<byte>
    var pos: nat
    /** Everything accepted since the buffer was made or reset. */
    ghost var history: seq<byte>

    ghost predicate Valid()
      reads this, buf
    {
      && buf.Length == 2 * size && pos <= buf.Length
      && pos <= |history| && (pos < size ==> pos == |history|)
      && buf[..pos] == Last(history, pos)
    }

    constructor (size: nat)
      ensures Valid() && this.size == size && history == [] && pos == 0 && fresh(buf)
    {
      this.size := size;
      buf := new byte[2 * size];
      pos, history := 0, [];
    }

    /** Where the next byte goes: past the middle of the slack the buffer is compacted first. */
    function Start(): nat
      reads this
    {
      StartAt(size, pos)
    }

    /** Accepts a prefix of `p`: all of it whenever it fits into the slack that compaction guarantees. */
    method Write(p: seq<byte>) returns (n: nat)
      requires Valid()
      modifies this, buf
      ensures Valid() && n <= |p| && history == old(history) + p[..n]
      ensures n == Min(|p|, 2 * size - old(Start()))
      ensures old(Start()) == if old(pos) > size * 17 / 10 then size else old(pos)
      ensures pos == if p == [] then old(pos) else old(Start()) + n
      ensures |p| <= 2 * size - size * 17 / 10 ==> n == |p|
    {
      if p == [] {
        return 0;
      }
      if pos > Threshold(size) {
        Compact();
      }
      n := Append(p);
    }

    method Compact()
      requires Valid() && pos > size
      modifies `pos, buf
      ensures Valid() && pos == size
    {
      var s := pos - size;
      ghost var was := buf[..pos];
      forall i | 0 <= i < size { buf[i] := buf[s + i]; }
      pos := size;
      assert buf[..size] == was[s..];
      assert was[s..] == Last(history, size);
    }

    method Append(p: seq<byte>) returns (n: nat)
      requires Valid()
      modifies `pos, `history, buf
      ensures Valid() && n == Min(|p|, 2 * size - old(pos)) && history == old(history) + p[..n] && pos == old(pos) + n
    {
      n := if |p| < buf.Length - pos then |p| else buf.Length - pos;
      ghost var was := buf[..pos];
      forall i | 0 <= i < n { buf[pos + i] := p[i]; }
      assert buf[..pos + n] == was + p[..n];
      pos, history := pos + n, history + p[..n];
      assert Last(history, pos) == was + p[..n];
    }

    /** What is read back: the last `size` bytes accepted, or all of them if there are fewer. */
    method Bytes() returns (out: seq<byte>)
      requires Valid()
      ensures out == Last(history, Min(size, |history|))
    {
      if pos == 0 {
        return [];
      }
      var first := if pos < size then 0 else pos - size;
      out := buf[first..pos];
      assert out == buf[..pos][first..];
    }

    method Reset()
      requires Valid()
      modifies `pos, `history
      ensures Valid() && history == [] && pos == 0
    {
      pos, history := 0, [];
    }
  }

  datatype Op = WriteOp(p: seq<byte>) | ResetOp

  /** The bytes written since the last reset, as a simple list. */
  function Written(ops: seq<Op>): seq<byte> {
    if ops == [] then []
    else match ops[|ops| - 1]
         case WriteOp(p) => Written(ops[..|ops| - 1]) + p
         case ResetOp => []
  }

  /** What was accepted since the last reset, and where the next byte would go without compaction. */
  datatype Account = Account(pos: nat, accepted: seq<byte>)

  /** A write is accepted as far as it fits. */
  function Accept(size: nat, a: Account, p: seq<byte>): (r: Account)
    requires a.pos <= 2 * size
    ensures r.pos <= 2 * size
  {
    if p == [] then a
    else
      var start := StartAt(size, a.pos);
      var n := Min(|p|, 2 * size - start);
      Account(start + n, a.accepted + p[..n])
  }

  function Kept(size: nat, ops: seq<Op>): (a: Account)
    ensures a.pos <= 2 * size
  {
    if ops == [] then Account(0, [])
    else match ops[|ops| - 1]
         case WriteOp(p) => Accept(size, Kept(size, ops[..|ops| - 1]), p)
         case ResetOp => Account(0, [])
  }

  /** Every write was accepted whole. */
  predicate AllFit(size: nat, ops: seq<Op>) {
    ops == []
    || (var front := ops[..|ops| - 1];
        match ops[|ops| - 1]
        case WriteOp(p) => AllFit(size, front) && |p| <= 2 * size - StartAt(size, Kept(size, front).pos)
        case ResetOp => true)
  }

  lemma AcceptsWhole(size: nat, a: Account, written: seq<byte>, p: seq<byte>)
    requires a.pos <= 2 * size && |a.accepted| <= |written|
    ensures |Accept(size, a, p).accepted| <= |written + p|
    ensures Accept(size, a, p).accepted == written + p
            <==> a.accepted == written && |p| <= 2 * size - StartAt(size, a.pos)
  {
    var n := if p == [] then 0 else Min(|p|, 2 * size - StartAt(size, a.pos));
    assert Accept(size, a, p).accepted == a.accepted + p[..n];
    if a.accepted + p[..n] == written + p {
      assert |a.accepted| == |written| && n == |p|;
      assert a.accepted == (a.accepted + p[..n])[..|written|] == (written + p)[..|written|] == written;
    }
  }

  lemma KeptNext(size: nat, ops: seq<Op>, i: nat)
    requires i < |ops|
    ensures Kept(size, ops[..i + 1])
         == if ops[i].WriteOp? then Accept(size, Kept(size, ops[..i]), ops[i].p) else Account(0, [])
  {
    assert ops[..i + 1][..i] == ops[..i];
  }

  /** The buffer keeps the list itself exactly when every write since the last reset fit, and small ones always do. */
  lemma {:induction false} KeptIsWritten(size: nat, ops: seq<Op>)
    ensures |Kept(size, ops).accepted| <= |Written(ops)|
    ensures Kept(size, ops).accepted == Written(ops) <==> AllFit(size, ops)
    ensures (forall op :: op in ops && op.WriteOp? ==> |op.p| <= Slack(size)) ==> AllFit(size, ops)
  {
    if ops != [] && ops[|ops| - 1].WriteOp? {
      var front, p := ops[..|ops| - 1], ops[|ops| - 1].p;
      KeptIsWritten(size, front);
      AcceptsWhole(size, Kept(size, front), Written(front), p);
      assert forall op :: op in front ==> op in ops;
    }
  }

  method Perform(r: RingBuffer, op: Op)
    requires r.Valid()
    modifies r, r.buf
    ensures r.Valid()
    ensures Account(r.pos, r.history)
         == if op.WriteOp? then Accept(r.size, Account(old(r.pos), old(r.history)), op.p) else Account(0, [])
  {
    match op
    case WriteOp(p) =>
      var n := r.Write(p);
      assert p == [] ==> r.history == old(r.history);
    case ResetOp => r.Reset();
  }

  /** However often it was compacted, the buffer reads like the tail of what was accepted. */
  method Replay(size: nat, ops: seq<Op>) returns (out: seq<byte>)
    ensures var kept := Kept(size, ops).accepted; out == Last(kept, Min(size, |kept|))
  {
    var r := new RingBuffer(size);
    for i := 0 to |ops|
      invariant r.Valid() && fresh(r) && fresh(r.buf) && r.size == size && Account(r.pos, r.history) == Kept(size, ops[..i])
    {
      KeptNext(size, ops, i);
      Perform(r, ops[i]);
    }
    assert ops[..|ops|] == ops;
    out := r.Bytes();
  }
}
