/** WBuffer of Source/Util/Buffer.hpp: a growable byte queue. */
module ByteBuffer {
  import opened Bytes

  const SIZE_MAX := 0xFFFF_FFFF_FFFF_FFFF
  const HALF := 0x7FFF_FFFF_FFFF_FFFF
  const FIRST_CAPACITY := 1024

  // ------------------------------------------------------------ capacity

  /** The loop of EnsureCapacity. */
  function Doubled(cap: nat, needed: nat): (r: nat)
    requires 0 < cap
    ensures needed <= r && cap <= r
    ensures r == cap || r < 2 * needed
    decreases needed - cap
  {
    if needed <= cap then cap else if cap > HALF then needed else Doubled(2 * cap, needed)
  }

  /** The size of the storage after EnsureCapacity. */
  function Capacity(size: nat, needed: nat): (r: nat) {
    if needed <= size then size else Doubled(if size > 0 then size else FIRST_CAPACITY, needed)
  }

  /** Growth never wraps, reaches what is needed, does not overshoot, and at least doubles the
      storage while sizes stay in the lower half of the range. */
  lemma CapacityBounds(size: nat, needed: nat)
    requires size <= SIZE_MAX && needed <= SIZE_MAX
    ensures var r := Capacity(size, needed);
            && needed <= r <= SIZE_MAX && size <= r
            && (r != size ==> r < 2 * needed || r < FIRST_CAPACITY + 1)
            && (r != size && needed <= HALF ==> 2 * size <= r)
            && (size == 0 && 0 < needed ==> 1024 <= r)
  {
    if needed > size {
      var cap := if size > 0 then size else FIRST_CAPACITY;
      DoubledBelow(cap, needed);
    }
  }

  lemma {:induction false} DoubledBelow(cap: nat, needed: nat)
    requires 0 < cap <= SIZE_MAX && needed <= SIZE_MAX
    ensures Doubled(cap, needed) <= SIZE_MAX
    ensures cap < needed <= HALF ==> 2 * cap <= Doubled(cap, needed)
    decreases needed - cap
  {
    if cap < needed && cap <= HALF {
      DoubledBelow(2 * cap, needed);
    }
  }

  // ------------------------------------------------------------ the buffer as a value

  datatype Buf = Buf(data: seq<Byte>, r: nat, w: nat)

  predicate Ok(b: Buf) { b.r <= b.w <= |b.data| <= SIZE_MAX }

  /** The unread bytes. */
  function Queue(b: Buf): seq<Byte>
    requires Ok(b)
  {
    b.data[b.r..b.w]
  }

  /** std::vector::resize: cut, or pad with zeros. */
  function Resized(s: seq<Byte>, n: nat): (t: seq<Byte>)
    ensures |t| == n
    ensures |s| <= n ==> t[..|s|] == s
  {
    if n <= |s| then s[..n] else s + seq(n - |s|, _ => 0)
  }

  /** `s` with `put` written over it at `at`. */
  function Overwritten(s: seq<Byte>, at: nat, put: seq<Byte>): (t: seq<Byte>)
    requires at + |put| <= |s|
    ensures |t| == |s| && t[..at] == s[..at] && t[at..at + |put|] == put
  {
    s[..at] + put + s[at + |put|..]
  }

  function Least(a: nat, b: nat): nat { if a < b then a else b }

  /** The write would push the end beyond the range of sizes. */
  predicate Overflows(b: Buf, s: seq<Byte>) { |s| > SIZE_MAX - b.w }

  function Written(b: Buf, s: seq<Byte>): Buf
    requires Ok(b)
  {
    if s == [] || Overflows(b, s) then b
    else
      CapacityBounds(|b.data|, b.w + |s|);
      Buf(Overwritten(Resized(b.data, Capacity(|b.data|, b.w + |s|)), b.w, s), b.r, b.w + |s|)
  }

  function Taken(b: Buf, n: nat): Buf
    requires Ok(b)
  {
    b.(r := b.r + Least(n, b.w - b.r))
  }

  function Consumed(b: Buf, n: nat): Buf
    requires Ok(b)
  {
    var t := Taken(b, n);
    if t.r == t.w then t.(r := 0, w := 0) else t
  }

  function Compacted(b: Buf): Buf
    requires Ok(b)
  {
    if b.r == 0 || b.r >= b.w then b
    else Buf(Overwritten(b.data, 0, b.data[b.r..b.w]), 0, b.w - b.r)
  }

  // ------------------------------------------------------------ first in, first out

  datatype Op = Write(bytes: seq<Byte>) | Read(n: nat) | Consume(n: nat) | Compact

  function Step(b: Buf, op: Op): Buf
    requires Ok(b)
  {
    match op
    case Write(s) => Written(b, s)
    case Read(n) => Taken(b, n)
    case Consume(n) => Consumed(b, n)
    case Compact => Compacted(b)
  }

  /** The same on an ideal queue. */
  function Ideal(q: seq<Byte>, op: Op): seq<Byte> {
    match op
    case Write(s) => q + s
    case Read(n) => q[Least(n, |q|)..]
    case Consume(n) => q[Least(n, |q|)..]
    case Compact => q
  }

  lemma WrittenAppends(b: Buf, s: seq<Byte>)
    requires Ok(b)
    ensures Ok(Written(b, s)) && Written(b, s).w <= b.w + |s| && |b.data| <= |Written(b, s).data|
    ensures !Overflows(b, s) ==> Queue(Written(b, s)) == Queue(b) + s
  {
    if s != [] && !Overflows(b, s) {
      CapacityBounds(|b.data|, b.w + |s|);
      var d := Resized(b.data, Capacity(|b.data|, b.w + |s|));
      var t := Written(b, s);
      assert t.data[..b.w] == d[..b.w] == b.data[..b.w];
      assert Queue(t) == t.data[..b.w][b.r..] + t.data[b.w..b.w + |s|];
    }
  }

  lemma CompactedKeeps(b: Buf)
    requires Ok(b)
    ensures Ok(Compacted(b)) && Queue(Compacted(b)) == Queue(b)
  {
  }

  lemma StepIsFifo(b: Buf, op: Op)
    requires Ok(b) && (op.Write? ==> !Overflows(b, op.bytes))
    ensures Ok(Step(b, op)) && Queue(Step(b, op)) == Ideal(Queue(b), op)
    ensures Step(b, op).w <= b.w + if op.Write? then |op.bytes| else 0
  {
    match op {
      case Write(s) => WrittenAppends(b, s);
      case Read(n) =>
      case Consume(n) =>
      case Compact => CompactedKeeps(b);
    }
  }

  function Run(b: Buf, ops: seq<Op>): (r: Buf)
    requires Ok(b)
    ensures Ok(r)
    decreases |ops|
  {
    if ops == [] then b else StepOk(b, ops[0]); Run(Step(b, ops[0]), ops[1..])
  }

  lemma StepOk(b: Buf, op: Op)
    requires Ok(b)
    ensures Ok(Step(b, op))
  {
    match op {
      case Write(s) => WrittenAppends(b, s);
      case Read(n) =>
      case Consume(n) =>
      case Compact => CompactedKeeps(b);
    }
  }

  /** Every write of the run, in the state it meets, needs no more than `cap` bytes of storage. */
  predicate WritesFit(b: Buf, ops: seq<Op>, cap: nat)
    requires Ok(b)
    decreases |ops|
  {
    ops == [] ||
    ((ops[0].Write? ==> b.w + |ops[0].bytes| <= cap) && (StepOk(b, ops[0]); WritesFit(Step(b, ops[0]), ops[1..], cap)))
  }

  function IdealRun(q: seq<Byte>, ops: seq<Op>): seq<Byte>
    decreases |ops|
  {
    if ops == [] then q else IdealRun(Ideal(q, ops[0]), ops[1..])
  }

  function AllWritten(ops: seq<Op>): seq<Byte> {
    if ops == [] then [] else (if ops[0].Write? then ops[0].bytes else []) + AllWritten(ops[1..])
  }

  /** How many bytes the run takes out of a queue that starts as `q`. */
  function AllTaken(q: seq<Byte>, ops: seq<Op>): nat
    decreases |ops|
  {
    if ops == [] then 0
    else (if ops[0].Read? || ops[0].Consume? then Least(ops[0].n, |q|) else 0) + AllTaken(Ideal(q, ops[0]), ops[1..])
  }

  /** For any interleaving, what can be read is what an ideal queue holds. */
  lemma {:induction false} RunIsFifo(b: Buf, ops: seq<Op>)
    requires Ok(b) && WritesFit(b, ops, SIZE_MAX)
    ensures Queue(Run(b, ops)) == IdealRun(Queue(b), ops)
    decreases |ops|
  {
    if ops != [] {
      StepIsFifo(b, ops[0]);
      RunIsFifo(Step(b, ops[0]), ops[1..]);
    }
  }

  lemma DropFromFront(q: seq<Byte>, s: seq<Byte>, k: nat, t: nat)
    requires k <= |q| && t <= |q[k..] + s|
    ensures (q[k..] + s)[t..] == (q + s)[k + t..]
  {
    assert (q + s)[k..] == q[k..] + s;
  }

  lemma Regroup(a: seq<Byte>, b: seq<Byte>, c: seq<Byte>)
    ensures (a + b) + c == a + (b + c)
  {
  }

  /** And an ideal queue holds everything written, in order, less what was taken from its front. */
  lemma {:induction false} IdealIsConcatenation(q: seq<Byte>, ops: seq<Op>)
    ensures AllTaken(q, ops) <= |q + AllWritten(ops)|
    ensures IdealRun(q, ops) == (q + AllWritten(ops))[AllTaken(q, ops)..]
    decreases |ops|
  {
    if ops == [] {
      assert q + AllWritten(ops) == q;
    } else {
      var q', later := Ideal(q, ops[0]), AllWritten(ops[1..]);
      IdealIsConcatenation(q', ops[1..]);
      if ops[0].Write? {
        assert AllWritten(ops) == ops[0].bytes + later && AllTaken(q, ops) == AllTaken(q', ops[1..]);
        Regroup(q, ops[0].bytes, later);
      } else {
        var k := if ops[0].Compact? then 0 else Least(ops[0].n, |q|);
        assert q' == q[k..] && AllWritten(ops) == later && AllTaken(q, ops) == k + AllTaken(q', ops[1..]);
        DropFromFront(q, later, k, AllTaken(q', ops[1..]));
      }
    }
  }

  // ------------------------------------------------------------ the cost of growing

  /** The old bytes that a step copies because the storage is replaced. */
  function CopiedBy(b: Buf, op: Op): nat
    requires Ok(b)
  {
    if |Step(b, op).data| != |b.data| then |b.data| else 0
  }

  function Copied(b: Buf, ops: seq<Op>): nat
    requires Ok(b)
    decreases |ops|
  {
    if ops == [] then 0 else StepOk(b, ops[0]); CopiedBy(b, ops[0]) + Copied(Step(b, ops[0]), ops[1..])
  }

  lemma StepCopies(b: Buf, op: Op)
    requires Ok(b) && (op.Write? ==> b.w + |op.bytes| <= HALF)
    ensures |b.data| + CopiedBy(b, op) <= |Step(b, op).data|
  {
    if op.Write? {
      CapacityBounds(|b.data|, b.w + |op.bytes|);
    }
  }

  /** Growing is paid for by the growth: all regrowths of a run together copy no more bytes than the
      storage gains. */
  lemma {:induction false} RunCopiesLittle(b: Buf, ops: seq<Op>)
    requires Ok(b) && WritesFit(b, ops, HALF)
    ensures Copied(b, ops) <= |Run(b, ops).data| - |b.data|
    decreases |ops|
  {
    if ops != [] {
      StepCopies(b, ops[0]);
      StepOk(b, ops[0]);
      RunCopiesLittle(Step(b, ops[0]), ops[1..]);
    }
  }

  // ------------------------------------------------------------ the class

  class WBuffer {
    var data: seq<Byte>
    var readPos: nat
    var writePos: nat

    function Now(): Buf
      reads this
    {
      Buf(data, readPos, writePos)
    }

    ghost predicate Valid()
      reads this
    {
      Ok(Now())
    }

    constructor (size: nat)
      requires size <= SIZE_MAX
      ensures Valid() && Queue(Now()) == [] && |data| == size
    {
      data, readPos, writePos := seq(size, _ => 0), 0, 0;
    }

    method EnsureCapacity(needed: nat)
      requires |data| <= SIZE_MAX && needed <= SIZE_MAX
      modifies this`data
      ensures data == Resized(old(data), Capacity(|old(data)|, needed))
    {
      if needed <= |data| {
        assert data == data[..|data|];
        return;
      }
      var newCap := if |data| > 0 then |data| else FIRST_CAPACITY;
      ghost var goal := Doubled(newCap, needed);
      while newCap < needed
        invariant 0 < newCap && Doubled(newCap, needed) == goal
        decreases needed - newCap
      {
        if newCap > SIZE_MAX / 2 {
          newCap := needed;
          break;
        }
        newCap := newCap * 2;
      }
      data := Resized(data, newCap);
    }

    method Reset()
      modifies this`readPos, this`writePos
      ensures readPos == 0 && writePos == 0
    {
      readPos, writePos := 0, 0;
    }

    method WriteBytes(bytes: seq<Byte>)
      requires Valid()
      modifies this
      ensures Valid() && Now() == Written(old(Now()), bytes)
      ensures |bytes| <= SIZE_MAX - old(writePos) ==> Queue(Now()) == old(Queue(Now())) + bytes
      ensures |bytes| > SIZE_MAX - old(writePos) ==> Now() == old(Now())
    {
      WrittenAppends(Now(), bytes);
      if bytes == [] {
        return;
      }
      if |bytes| > SIZE_MAX - writePos {
        return;
      }
      EnsureCapacity(writePos + |bytes|);
      CapacityBounds(|old(data)|, writePos + |bytes|);
      data := Overwritten(data, writePos, bytes);
      writePos := writePos + |bytes|;
    }

    method ReadBytes(n: nat) returns (bytes: seq<Byte>)
      requires Valid()
      modifies this`readPos
      ensures Valid() && Now() == Taken(old(Now()), n)
      ensures bytes + Queue(Now()) == old(Queue(Now())) && |bytes| == Least(n, |old(Queue(Now()))|)
    {
      var k := if n < writePos - readPos then n else writePos - readPos;
      bytes := data[readPos..readPos + k];
      readPos := readPos + k;
    }

    method ConsumeBytes(n: nat)
      requires Valid()
      modifies this`readPos, this`writePos
      ensures Valid() && Now() == Consumed(old(Now()), n)
      ensures Queue(Now()) == old(Queue(Now()))[Least(n, |old(Queue(Now()))|)..]
      ensures Queue(Now()) == [] ==> readPos == 0 == writePos
    {
      var k := if n < writePos - readPos then n else writePos - readPos;
      readPos := readPos + k;
      if readPos == writePos {
        Reset();
      }
    }

    method CompactBytes()
      requires Valid()
      modifies this
      ensures Valid() && Now() == Compacted(old(Now())) && Queue(Now()) == old(Queue(Now()))
      ensures Queue(Now()) != [] ==> readPos == 0
    {
      CompactedKeeps(Now());
      if readPos == 0 || readPos >= writePos {
        return;
      }
      var remaining := writePos - readPos;
      data := Overwritten(data, 0, data[readPos..writePos]);
      readPos, writePos := 0, remaining;
    }

    method SetWritingPos(pos: nat)
      requires Valid() && pos <= SIZE_MAX
      modifies this
      ensures Valid() && writePos == pos && readPos == Least(old(readPos), pos)
      ensures data == if pos <= |old(data)| then old(data) else Resized(old(data), Capacity(|old(data)|, pos))
      ensures pos <= |old(data)| ==> Queue(Now()) == old(data)[readPos..pos]
      ensures old(writePos) <= pos ==> old(Queue(Now())) <= Queue(Now())
    {
      if pos > |data| {
        CapacityBounds(|data|, pos);
        EnsureCapacity(pos);
      }
      assert data[..|old(data)|] == old(data);
      writePos := pos;
      if readPos > writePos {
        readPos := writePos;
      }
      assert old(writePos) <= pos ==> old(data)[..old(writePos)] == data[..old(writePos)];
    }

    method Resize(n: nat)
      requires Valid() && n <= SIZE_MAX
      modifies this
      ensures Valid() && |data| == n && writePos == Least(old(writePos), n) && readPos == Least(old(readPos), writePos)
      ensures Queue(Now()) == old(data)[readPos..writePos]
    {
      data := Resized(data, n);
      if writePos > n {
        writePos := n;
      }
      if readPos > writePos {
        readPos := writePos;
      }
      assert data[..writePos] == old(data)[..writePos];
      assert data[readPos..writePos] == data[..writePos][readPos..];
    }
  }
}
